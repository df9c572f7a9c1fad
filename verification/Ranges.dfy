/** The bytes that control blocks govern: what one allocation, a run of them, a merge or a release does to them. */
module Ranges {
  import opened Seqs
  import opened Bytes
  import opened BTreeSpec
  import opened OverlayPtr
  import opened ControlBlocks
  import opened RingSets

  // ---------------------------------------------------------------- what an allocation does

  /** An address as the sizes are computed with: its second byte weighs too much here too. */
  function Weight(a: nat): nat { Weighed(BigEndian(a, 5)) }

  /** The machine's unsigned difference; 0 also for a block without end. */
  function FreeBlockSize(b: Block): nat {
    if b.end == 0 then 0 else (Weight(b.end) - Weight(b.mapping)) % 0x1_0000_0000_0000_0000
  }

  lemma WeightOf(a: nat)
    requires a < 0x1_0000_0000
    ensures Weight(a) == a / SAFE_LIMIT * WEIGHT1 + a % SAFE_LIMIT
  {
    FiveDigits(a);
    hide BigEndian;
    Digits(a);
  }

  lemma Digits(a: nat)
    requires a < 0x1_0000_0000
    ensures a / 0x100_0000 % 256 == a / 0x100_0000
    ensures a / 0x1_0000 % 256 * 0x1_0000 + a / 0x100 % 256 * 0x100 + a % 256 == a % 0x100_0000
  {
    var p, q, r := a / 0x100_0000, a / 0x1_0000, a / 0x100;
    assert r / 0x100 == q && q / 0x100 == p;
    assert q % 256 == q - 0x100 * p && r % 256 == r - 0x100 * q;
  }

  /** A bounded block's size is what lies between its addresses if and only if their second bytes agree. */
  lemma FreeBlockSizeExact(b: Block)
    requires b.mapping < b.end < 0x1_0000_0000
    ensures FreeBlockSize(b) == b.end - b.mapping <==> b.mapping / SAFE_LIMIT == b.end / SAFE_LIMIT
    ensures b.mapping / SAFE_LIMIT != b.end / SAFE_LIMIT ==> FreeBlockSize(b) > b.end - b.mapping
  {
    WeightOf(b.mapping);
    WeightOf(b.end);
    assert FreeBlockSize(b) == (Weight(b.end) - Weight(b.mapping)) % 0x1_0000_0000_0000_0000;
    hide Weight, FreeBlockSize;
    SizeDifference(b.mapping, b.end, Weight(b.mapping), Weight(b.end));
  }

  lemma SizeDifference(m: nat, n: nat, wm: nat, wn: nat)
    requires m < n < 0x1_0000_0000
    requires wm == m / SAFE_LIMIT * WEIGHT1 + m % SAFE_LIMIT && wn == n / SAFE_LIMIT * WEIGHT1 + n % SAFE_LIMIT
    ensures (wn - wm) % 0x1_0000_0000_0000_0000 == n - m <==> m / SAFE_LIMIT == n / SAFE_LIMIT
    ensures m / SAFE_LIMIT != n / SAFE_LIMIT ==> (wn - wm) % 0x1_0000_0000_0000_0000 > n - m
  {
    var p, q, r, s := m / SAFE_LIMIT, n / SAFE_LIMIT, m % SAFE_LIMIT, n % SAFE_LIMIT;
    assert m == p * SAFE_LIMIT + r && n == q * SAFE_LIMIT + s && p <= q < 256 && r < SAFE_LIMIT && s < SAFE_LIMIT;
    assert wn - wm == (q - p) * WEIGHT1 + (s - r) && n - m == (q - p) * SAFE_LIMIT + (s - r);
    assert 0 < wn - wm < 0x1_0000_0000_0000_0000;
  }

  /** The size searched for is cut to 32 bits. */
  predicate Fits(b: Block, size: nat) { FreeBlockSize(b) == 0 || size % 0x1_0000_0000 <= FreeBlockSize(b) }

  /** Something of the block is left. */
  predicate Splits(b: Block, size: nat) { FreeBlockSize(b) == 0 || size < FreeBlockSize(b) }

  /** Block k of the ring is the first one that fits. */
  ghost predicate FirstFit(b: Blocks, cells: seq<Addr>, k: nat, size: nat) {
    && k < |cells| && (forall j | 0 <= j < |cells| :: cells[j] in b)
    && Fits(b[cells[k]], size) && forall j | 0 <= j < k :: !Fits(b[cells[j]], size)
  }

  /** A sum of overlay addresses, where it is exact. */
  function Moved(a: nat, n: nat): (r: nat)
    requires a < SAFE_LIMIT && a + n < LIMIT
    ensures r == a + n
  {
    assert Pow256(5) == LIMIT;
    ValueOfBigEndian(a, 5);
    PlusExact(BigEndian(a, 5), n);
    Value(Plus(BigEndian(a, 5), n).value)
  }

  ghost predicate Governs(b: Blocks, t: Addr, mapping: nat, end: nat) { t in b && b[t].mapping == mapping && b[t].end == end }

  /** These blocks govern what they governed. */
  ghost predicate KeptFor(b: Blocks, c: Blocks, cells: seq<Addr>) {
    forall i | 0 <= i < |cells| :: cells[i] in b && Governs(c, cells[i], b[cells[i]].mapping, b[cells[i]].end)
  }

  /** From (b, rings) block k of the free ring was used for an allocation, giving (c, rs). */
  ghost predicate Taken(b: Blocks, rings: seq<seq<Addr>>, c: Blocks, rs: seq<seq<Addr>>, k: nat, size: nat)
    requires |rings| == 3 && k < |rings[FREE]| && rings[FREE][k] in b
  {
    var t := rings[FREE][k];
    && |rs| == 3 && rs[UNUSED] == [t]
    && (exists n :: rs[ALLOCATED] == [n] + rings[ALLOCATED] && Governs(c, n, b[t].mapping, b[t].mapping + size))
    && (if Splits(b[t], size)
        then exists m :: rs[FREE] == [m] + RemoveAt(rings[FREE], k) && Governs(c, m, b[t].mapping + size, b[t].end)
        else rs[FREE] == RemoveAt(rings[FREE], k))
    && KeptFor(b, c, RemoveAt(rings[FREE], k)) && KeptFor(b, c, rings[ALLOCATED])
  }

  ghost predicate InUse(rings: seq<seq<Addr>>, cells: seq<Addr>)
    requires |rings| == 3
  {
    forall x | x in cells :: x in rings[FREE] || x in rings[ALLOCATED]
  }

  ghost function UsedCells(rings: seq<seq<Addr>>): (cells: seq<Addr>)
    requires |rings| == 3
  {
    rings[FREE] + rings[ALLOCATED]
  }

  /** Blocks in use are blocks, and no block in hand is one of them. */
  lemma UsedAreBlocks(b: Blocks, tail: Addr, rings: seq<seq<Addr>>, held: set<Addr>, freeHead: Addr, allocatedHead: Addr, unusedHead: Addr, cells: seq<Addr>)
    requires Headed(b, tail, rings, held, freeHead, allocatedHead, unusedHead) && InUse(rings, cells)
    ensures forall x | x in cells :: x in b && x !in held
    ensures KeptFor(b, b, cells)
  {
    forall x | x in cells ensures x in b && x !in held {
      assert InRings(rings, x);
      InRingIsBlock(b, rings, x);
    }
    assert forall i | 0 <= i < |cells| :: cells[i] in cells;
  }

  lemma KeptOn(a: Blocks, b: Blocks, c: Blocks, cells: seq<Addr>)
    requires KeptFor(a, b, cells) && Kept(b, c)
    ensures KeptFor(a, c, cells)
  {
  }

  lemma KeptBy(a: Blocks, b: Blocks, c: Blocks, cells: seq<Addr>)
    requires KeptFor(a, b, cells) && KeptFor(b, c, cells)
    ensures KeptFor(a, c, cells)
  {
    forall i | 0 <= i < |cells| ensures Governs(c, cells[i], a[cells[i]].mapping, a[cells[i]].end) {
      assert Governs(b, cells[i], a[cells[i]].mapping, a[cells[i]].end);
    }
  }

  lemma KeptSome(a: Blocks, c: Blocks, all: seq<Addr>, cells: seq<Addr>)
    requires KeptFor(a, c, all) && forall x | x in cells :: x in all
    ensures KeptFor(a, c, cells)
  {
    forall i | 0 <= i < |cells| ensures cells[i] in a && Governs(c, cells[i], a[cells[i]].mapping, a[cells[i]].end) {
      assert cells[i] in all;
    }
  }

  lemma KeptSet(a: Blocks, b: Blocks, cells: seq<Addr>, n: Addr, block: Block)
    requires KeptFor(a, b, cells) && n !in cells
    ensures KeptFor(a, b[n := block], cells)
  {
    forall i | 0 <= i < |cells| ensures Governs(b[n := block], cells[i], a[cells[i]].mapping, a[cells[i]].end) {
      assert Governs(b, cells[i], a[cells[i]].mapping, a[cells[i]].end);
    }
  }

  lemma UsedStay(rings: seq<seq<Addr>>, cells: seq<Addr>)
    requires |rings| == 3 && InUse(rings, cells)
    ensures InUse(WithoutUnused(rings), cells)
  {
  }

  /** The rings of an allocation that leaves a rest. */
  lemma SplitRings(rings: seq<seq<Addr>>, n: Addr, m: Addr, k: nat)
    requires |rings| == 3 && |rings[UNUSED]| <= 1 && k < |rings[FREE]|
    ensures WithoutUnused(rings)[UNUSED] == []
    ensures var r2 := With(WithoutUnused(rings), ALLOCATED, n);
            && r2[FREE] == rings[FREE] && r2[ALLOCATED] == [n] + rings[ALLOCATED] && r2[UNUSED] == [] && WithoutUnused(r2) == r2
            && var r := With(Unused(r2, FREE, k), FREE, m);
               r == [[m] + RemoveAt(rings[FREE], k), [n] + rings[ALLOCATED], [rings[FREE][k]]]
    ensures var r2 := With(WithoutUnused(rings), ALLOCATED, n);
            Unused(r2, FREE, k) == [RemoveAt(rings[FREE], k), [n] + rings[ALLOCATED], [rings[FREE][k]]]
  {
    if rings[UNUSED] != [] { assert RemoveAt(rings[UNUSED], 0) == []; }
    var t := rings[FREE][k];
    assert [t] + [] == [t];
    var r2 := With(WithoutUnused(rings), ALLOCATED, n);
    var r3 := Unused(r2, FREE, k);
    assert r3[FREE] == RemoveAt(rings[FREE], k) && r3[ALLOCATED] == [n] + rings[ALLOCATED] && r3[UNUSED] == [t];
  }

  /** The parts of Taken, put together. */
  lemma TakenBy(b: Blocks, rings: seq<seq<Addr>>, c: Blocks, rs: seq<seq<Addr>>, k: nat, size: nat, n: Addr, m: Addr)
    requires |rings| == 3 && k < |rings[FREE]| && rings[FREE][k] in b
    requires KeptFor(b, c, UsedCells(rings))
    requires Governs(c, n, b[rings[FREE][k]].mapping, b[rings[FREE][k]].mapping + size)
    requires rs == [if Splits(b[rings[FREE][k]], size) then [m] + RemoveAt(rings[FREE], k) else RemoveAt(rings[FREE], k),
                    [n] + rings[ALLOCATED], [rings[FREE][k]]]
    requires Splits(b[rings[FREE][k]], size) ==> Governs(c, m, b[rings[FREE][k]].mapping + size, b[rings[FREE][k]].end)
    ensures Taken(b, rings, c, rs, k, size)
  {
    assert forall x | x in RemoveAt(rings[FREE], k) :: x in rings[FREE];
    KeptSome(b, c, UsedCells(rings), RemoveAt(rings[FREE], k));
    KeptSome(b, c, UsedCells(rings), rings[ALLOCATED]);
  }

  // ---------------------------------------------------------------- what runs of allocations keep

  /** The allocated blocks, the latest first, lie one behind the other from 0 up to the end. */
  ghost predicate Chain(b: Blocks, cells: seq<Addr>, end: nat) {
    if cells == [] then end == 0
    else cells[0] in b && b[cells[0]].mapping < end == b[cells[0]].end && Chain(b, cells[1..], b[cells[0]].mapping)
  }

  /** One free block without end behind everything allocated, and at most one unused block. */
  ghost predicate Steady(b: Blocks, rings: seq<seq<Addr>>, total: nat) {
    && |rings| == 3 && |rings[FREE]| == 1 && |rings[UNUSED]| <= 1
    && Governs(b, rings[FREE][0], total, 0) && Chain(b, rings[ALLOCATED], total)
  }

  lemma {:induction false} ChainKept(b: Blocks, c: Blocks, cells: seq<Addr>, end: nat)
    requires Chain(b, cells, end) && KeptFor(b, c, cells)
    ensures Chain(c, cells, end)
  {
    if cells != [] {
      assert Governs(c, cells[0], b[cells[0]].mapping, b[cells[0]].end);
      forall i | 0 <= i < |cells[1..]| ensures cells[1..][i] in b && Governs(c, cells[1..][i], b[cells[1..][i]].mapping, b[cells[1..][i]].end) {
        assert cells[1..][i] == cells[i + 1];
      }
      ChainKept(b, c, cells[1..], b[cells[0]].mapping);
    }
  }

  /** In a steady state any size fits, and the next allocation begins where the last one ended. */
  lemma TakenIsSteady(b: Blocks, rings: seq<seq<Addr>>, c: Blocks, rs: seq<seq<Addr>>, total: nat, size: nat)
    requires Steady(b, rings, total) && size > 0
    ensures FirstFit(b, rings[FREE], 0, size) && b[rings[FREE][0]].mapping == total
    ensures Taken(b, rings, c, rs, 0, size) ==> Steady(c, rs, total + size)
  {
    if Taken(b, rings, c, rs, 0, size) {
      ChainKept(b, c, rings[ALLOCATED], total);
      var n :| rs[ALLOCATED] == [n] + rings[ALLOCATED] && Governs(c, n, total, total + size);
      assert rs[ALLOCATED][1..] == rings[ALLOCATED];
      assert RemoveAt(rings[FREE], 0) == [];
    }
  }

  /** Every byte below the end belongs to one allocated block, and ranges do not overlap. */
  lemma {:induction false} ChainCovers(b: Blocks, cells: seq<Addr>, end: nat, x: nat)
    requires Chain(b, cells, end)
    ensures forall i | 0 <= i < |cells| :: cells[i] in b && b[cells[i]].mapping < b[cells[i]].end <= end
    ensures forall i, j | 0 <= i < j < |cells| :: b[cells[j]].end <= b[cells[i]].mapping
    ensures x < end <==> exists i :: 0 <= i < |cells| && b[cells[i]].mapping <= x < b[cells[i]].end
  {
    if cells != [] {
      var rest := cells[1..];
      ChainCovers(b, rest, b[cells[0]].mapping, x);
      assert forall i | 0 < i < |cells| :: cells[i] == rest[i - 1];
      if x < b[cells[0]].mapping {
        var i :| 0 <= i < |rest| && b[rest[i]].mapping <= x < b[rest[i]].end;
        assert cells[i + 1] == rest[i];
      } else if x < end {
        assert b[cells[0]].mapping <= x < b[cells[0]].end;
      }
    }
  }

  // ---------------------------------------------------------------- free ranges

  /** The block governs byte x. */
  predicate Owns(b: Block, x: nat) { b.mapping <= x && (b.end == 0 || x < b.end) }

  ghost predicate Covers(b: Blocks, cells: seq<Addr>, x: nat) { exists i :: 0 <= i < |cells| && cells[i] in b && Owns(b[cells[i]], x) }

  /** No range is empty. */
  ghost predicate Proper(b: Blocks, cells: seq<Addr>) {
    forall i | 0 <= i < |cells| :: cells[i] in b && (b[cells[i]].end == 0 || b[cells[i]].mapping < b[cells[i]].end)
  }

  /** No byte is governed by two blocks of the ring. */
  ghost predicate NoOverlap(b: Blocks, cells: seq<Addr>) {
    forall i, j | 0 <= i < j < |cells| :: cells[i] in b && cells[j] in b && Separate(b[cells[i]], b[cells[j]])
  }

  ghost predicate Separate(p: Block, q: Block) { forall x :: !(Owns(p, x) && Owns(q, x)) }

  /** The size computed for the block is the true one, as FreeBlockSizeExact says when. */
  predicate SizedRight(b: Block) {
    b.end == 0 || (b.mapping < b.end < 0x1_0000_0000 && b.mapping / SAFE_LIMIT == b.end / SAFE_LIMIT)
  }

  /** What fits such a block lies within it, and what is left is the rest of it. */
  lemma FitsInside(t: Block, size: nat)
    requires SizedRight(t) && Fits(t, size) && 0 < size < 0x1_0000_0000
    ensures t.end == 0 || t.mapping + size <= t.end
    ensures Splits(t, size) <==> t.end == 0 || t.mapping + size < t.end
  {
    if t.end != 0 { FreeBlockSizeExact(t); }
  }

  /** What the other blocks of the ring cover. */
  lemma OthersCover(b: Blocks, c: Blocks, cells: seq<Addr>, k: nat, x: nat)
    requires k < |cells| && KeptFor(b, c, RemoveAt(cells, k))
    ensures Covers(c, RemoveAt(cells, k), x) <==> exists i :: 0 <= i < |cells| && i != k && cells[i] in b && Owns(b[cells[i]], x)
  {
    var r := RemoveAt(cells, k);
    assert forall i | 0 <= i < |r| :: r[i] == cells[if i < k then i else i + 1] && Governs(c, r[i], b[r[i]].mapping, b[r[i]].end);
    if i :| 0 <= i < |cells| && i != k && cells[i] in b && Owns(b[cells[i]], x) {
      var j := if i < k then i else i - 1;
      assert r[j] == cells[i] && Owns(c[r[j]], x);
    }
    if Covers(c, r, x) {
      var j :| 0 <= j < |r| && r[j] in c && Owns(c[r[j]], x);
      assert Owns(b[cells[if j < k then j else j + 1]], x);
    }
  }

  /**
    An allocation takes exactly its range from the free bytes: all of it was free, none of it is any
    more, and every other byte is as free as it was.
  */
  lemma TakenWasFree(b: Blocks, rings: seq<seq<Addr>>, c: Blocks, rs: seq<seq<Addr>>, k: nat, size: nat, x: nat)
    requires |rings| == 3 && FirstFit(b, rings[FREE], k, size) && Taken(b, rings, c, rs, k, size) && 0 < size < 0x1_0000_0000
    requires NoOverlap(b, rings[FREE]) && SizedRight(b[rings[FREE][k]])
    ensures var at := b[rings[FREE][k]].mapping;
            && (at <= x < at + size ==> Covers(b, rings[FREE], x))
            && (Covers(c, rs[FREE], x) <==> Covers(b, rings[FREE], x) && !(at <= x < at + size))
  {
    var cells, t := rings[FREE], b[rings[FREE][k]];
    FitsInside(t, size);
    OthersCover(b, c, cells, k, x);
    RestCovers(b, c, cells, rs[FREE], k, size, x);
    hide FreeBlockSize, Fits, Splits, FirstFit, Taken, KeptFor;
    if Owns(t, x) {
      assert Covers(b, cells, x);
      forall i | 0 <= i < |cells| && i != k && cells[i] in b ensures !Owns(b[cells[i]], x) {
        assert Separate(b[cells[if i < k then i else k]], b[cells[if i < k then k else i]]);
      }
    }
  }

  /** The first block governs only what the second one does. */
  ghost predicate PartOf(p: Block, q: Block) { forall x :: Owns(p, x) ==> Owns(q, x) }

  /** Where free block i was before the allocation, when n new ones came in front. */
  function Origin(k: nat, n: nat, i: nat): nat { if i < n then k else if i - n < k then i - n else i - n + 1 }

  /** And the free blocks still do not overlap. */
  lemma TakenKeepsApart(b: Blocks, rings: seq<seq<Addr>>, c: Blocks, rs: seq<seq<Addr>>, k: nat, size: nat)
    requires |rings| == 3 && FirstFit(b, rings[FREE], k, size) && Taken(b, rings, c, rs, k, size)
    requires NoOverlap(b, rings[FREE])
    ensures NoOverlap(c, rs[FREE])
  {
    var cells, now, n := rings[FREE], rs[FREE], if Splits(b[rings[FREE][k]], size) then 1 else 0;
    forall i | 0 <= i < |now|
      ensures Origin(k, n, i) < |cells| && cells[Origin(k, n, i)] in b && now[i] in c && PartOf(c[now[i]], b[cells[Origin(k, n, i)]])
    {
      TakenOrigin(b, rings, c, rs, k, size, i);
    }
    hide Taken, FirstFit, PartOf, Separate, Splits;
    forall i, j | 0 <= i < j < |now| ensures now[i] in c && now[j] in c && Separate(c[now[i]], c[now[j]]) {
      var y, z := Origin(k, n, i), Origin(k, n, j);
      assert y != z;
      assert Separate(b[cells[if y < z then y else z]], b[cells[if y < z then z else y]]);
      PartsSeparate(b[cells[y]], b[cells[z]], c[now[i]], c[now[j]]);
    }
  }

  lemma PartsSeparate(p: Block, q: Block, p': Block, q': Block)
    requires PartOf(p', p) && PartOf(q', q) && (Separate(p, q) || Separate(q, p))
    ensures Separate(p', q')
  {
  }

  lemma TakenOrigin(b: Blocks, rings: seq<seq<Addr>>, c: Blocks, rs: seq<seq<Addr>>, k: nat, size: nat, i: nat)
    requires |rings| == 3 && FirstFit(b, rings[FREE], k, size) && Taken(b, rings, c, rs, k, size) && i < |rs[FREE]|
    ensures var y := Origin(k, if Splits(b[rings[FREE][k]], size) then 1 else 0, i);
            y < |rings[FREE]| && rings[FREE][y] in b && rs[FREE][i] in c && PartOf(c[rs[FREE][i]], b[rings[FREE][y]])
  {
    var t, r := b[rings[FREE][k]], RemoveAt(rings[FREE], k);
    var n := if Splits(t, size) then 1 else 0;
    assert i >= n ==> rs[FREE][i] == r[i - n];
    if i >= n { assert Governs(c, r[i - n], b[r[i - n]].mapping, b[r[i - n]].end); }
    hide Splits, Fits;
  }

  /** The free bytes afterwards: the other blocks, and what is left of block k. */
  lemma RestCovers(b: Blocks, c: Blocks, cells: seq<Addr>, now: seq<Addr>, k: nat, size: nat, x: nat)
    requires k < |cells| && cells[k] in b && SizedRight(b[cells[k]]) && Fits(b[cells[k]], size) && 0 < size < 0x1_0000_0000
    requires if Splits(b[cells[k]], size)
             then exists m :: now == [m] + RemoveAt(cells, k) && Governs(c, m, b[cells[k]].mapping + size, b[cells[k]].end)
             else now == RemoveAt(cells, k)
    ensures Covers(c, now, x) <==> Covers(c, RemoveAt(cells, k), x) || (Owns(b[cells[k]], x) && b[cells[k]].mapping + size <= x)
  {
    FitsInside(b[cells[k]], size);
    var t, r := b[cells[k]], RemoveAt(cells, k);
    hide Fits, FreeBlockSize, SizedRight;
    if Splits(t, size) {
      var m :| now == [m] + r && Governs(c, m, t.mapping + size, t.end);
      assert forall i | 0 <= i < |r| :: now[i + 1] == r[i];
      assert now[0] == m;
      if Covers(c, r, x) {
        var i :| 0 <= i < |r| && r[i] in c && Owns(c[r[i]], x);
        assert now[i + 1] in c && Owns(c[now[i + 1]], x);
      }
      if Covers(c, now, x) {
        var i :| 0 <= i < |now| && now[i] in c && Owns(c[now[i]], x);
        assert i > 0 ==> r[i - 1] in c && Owns(c[r[i - 1]], x);
      }
    }
  }

  /** The head of the ring takes over the range of block k, which begins where its own one ends. */
  ghost predicate Absorbs(b: Blocks, c: Blocks, cells: seq<Addr>, k: nat) {
    && 0 < k < |cells| && cells[0] in b && cells[k] in b && b[cells[0]].end == b[cells[k]].mapping != 0
    && Governs(c, cells[0], b[cells[0]].mapping, b[cells[k]].end)
    && KeptFor(b, c, RemoveAt(cells, k)[1..])
  }

  lemma AbsorbKeeps(b: Blocks, c: Blocks, cells: seq<Addr>, k: nat)
    requires Absorbs(b, c, cells, k) && Proper(b, cells)
    ensures Proper(c, RemoveAt(cells, k))
    ensures forall x :: Covers(c, RemoveAt(cells, k), x) <==> Covers(b, cells, x)
  {
    var r := RemoveAt(cells, k);
    forall i | 0 < i < |r| ensures r[i] in b && Governs(c, r[i], b[r[i]].mapping, b[r[i]].end) {
      assert r[i] == r[1..][i - 1];
    }
    assert forall i | 0 <= i < |r| :: r[i] == cells[if i < k then i else i + 1];
    forall x ensures Covers(c, r, x) <==> Covers(b, cells, x) {
      if Covers(b, cells, x) {
        var i :| 0 <= i < |cells| && cells[i] in b && Owns(b[cells[i]], x);
        var j := if i < k then i else if i == k then 0 else i - 1;
        assert Governs(c, r[j], c[r[j]].mapping, c[r[j]].end);
        assert Owns(c[r[j]], x);
      }
      if Covers(c, r, x) {
        var j :| 0 <= j < |r| && r[j] in c && Owns(c[r[j]], x);
        if j > 0 {
          assert Owns(b[r[j]], x);
        } else {
          assert Owns(b[cells[0]], x) || Owns(b[cells[k]], x);
        }
      }
    }
  }

  /** The same bytes are free, the same blocks allocated; blocks only moved from the free to the unused ones. */
  ghost predicate SameFree(b: Blocks, rings: seq<seq<Addr>>, c: Blocks, rs: seq<seq<Addr>>) {
    && |rings| == |rs| == 3 && rings[FREE] != [] && rs[FREE] != [] && rs[FREE][0] == rings[FREE][0]
    && rs[ALLOCATED] == rings[ALLOCATED] && KeptFor(b, c, rings[ALLOCATED])
    && |rs[FREE]| + |rs[UNUSED]| == |rings[FREE]| + |rings[UNUSED]| && Proper(c, rs[FREE])
    && forall x :: Covers(c, rs[FREE], x) <==> Covers(b, rings[FREE], x)
  }

  lemma SameFreeTwice(b: Blocks, r: seq<seq<Addr>>, c: Blocks, rs: seq<seq<Addr>>, d: Blocks, rt: seq<seq<Addr>>)
    requires SameFree(b, r, c, rs) && SameFree(c, rs, d, rt)
    ensures SameFree(b, r, d, rt)
  {
    KeptBy(b, c, d, r[ALLOCATED]);
    hide Covers, KeptFor, Proper;
  }

  lemma SameFreeNothing(b: Blocks, r: seq<seq<Addr>>)
    requires |r| == 3 && r[FREE] != [] && Proper(b, r[FREE]) && KeptFor(b, b, r[ALLOCATED])
    ensures SameFree(b, r, b, r)
  {
  }

  lemma AbsorbSameFree(b: Blocks, r: seq<seq<Addr>>, c: Blocks, k: nat)
    requires |r| == 3 && k < |r[FREE]| && Absorbs(b, c, r[FREE], k) && Proper(b, r[FREE]) && KeptFor(b, c, r[ALLOCATED])
    ensures SameFree(b, r, c, Unused(r, FREE, k))
  {
    AbsorbKeeps(b, c, r[FREE], k);
    var rs := Unused(r, FREE, k);
    assert rs[FREE] == RemoveAt(r[FREE], k) && rs[ALLOCATED] == r[ALLOCATED] && |rs[UNUSED]| == |r[UNUSED]| + 1;
    hide Absorbs, Covers, KeptFor, Proper, Unused;
  }

  /** A new free block stands for allocated block j, which is unused from now on. */
  ghost predicate Turned(b: Blocks, r: seq<seq<Addr>>, c: Blocks, rs: seq<seq<Addr>>, f: Addr, j: nat) {
    && |r| == |rs| == 3 && j < |r[ALLOCATED]| && r[ALLOCATED][j] in b && KeptFor(b, c, UsedCells(r))
    && rs[FREE] == [f] + r[FREE] && rs[ALLOCATED] == RemoveAt(r[ALLOCATED], j)
    && Governs(c, f, b[r[ALLOCATED][j]].mapping, b[r[ALLOCATED][j]].end)
  }

  /** Allocated block j is gone, its bytes are free, all other allocated blocks are as they were. */
  ghost predicate Freed(b: Blocks, r: seq<seq<Addr>>, c: Blocks, rs: seq<seq<Addr>>, j: nat)
    requires |r| == 3 && j < |r[ALLOCATED]| && r[ALLOCATED][j] in b
  {
    && |rs| == 3 && rs[ALLOCATED] == RemoveAt(r[ALLOCATED], j) && KeptFor(b, c, RemoveAt(r[ALLOCATED], j)) && Proper(c, rs[FREE])
    && forall x :: Covers(c, rs[FREE], x) <==> Covers(b, r[FREE], x) || Owns(b[r[ALLOCATED][j]], x)
  }

  lemma TurnedCovers(b: Blocks, r: seq<seq<Addr>>, c: Blocks, rs: seq<seq<Addr>>, f: Addr, j: nat)
    requires Turned(b, r, c, rs, f, j) && Proper(b, r[FREE]) && Proper(b, r[ALLOCATED])
    ensures Proper(c, rs[FREE]) && rs[FREE] != [] && rs[FREE][0] == f
    ensures forall x :: Covers(c, rs[FREE], x) <==> Covers(b, r[FREE], x) || Owns(b[r[ALLOCATED][j]], x)
  {
    var cells, now := r[FREE], rs[FREE];
    KeptSome(b, c, UsedCells(r), cells);
    forall i | 0 < i < |now| ensures now[i] == cells[i - 1] && now[i] in b && Governs(c, now[i], b[now[i]].mapping, b[now[i]].end) {
      assert Governs(c, cells[i - 1], b[cells[i - 1]].mapping, b[cells[i - 1]].end);
    }
    forall x ensures Covers(c, now, x) <==> Covers(b, cells, x) || Owns(b[r[ALLOCATED][j]], x) {
      if Covers(b, cells, x) {
        var i :| 0 <= i < |cells| && cells[i] in b && Owns(b[cells[i]], x);
        assert now[i + 1] == cells[i] && Owns(c[now[i + 1]], x);
      }
      if Owns(b[r[ALLOCATED][j]], x) { assert Owns(c[now[0]], x); }
      if Covers(c, now, x) {
        var i :| 0 <= i < |now| && now[i] in c && Owns(c[now[i]], x);
        assert i > 0 ==> Owns(b[now[i]], x);
      }
    }
  }

  lemma FreedBy(b: Blocks, r: seq<seq<Addr>>, c: Blocks, rs: seq<seq<Addr>>, d: Blocks, rt: seq<seq<Addr>>, f: Addr, j: nat)
    requires Turned(b, r, c, rs, f, j) && Proper(b, r[FREE]) && Proper(b, r[ALLOCATED]) && SameFree(c, rs, d, rt)
    ensures Freed(b, r, d, rt, j)
  {
    TurnedCovers(b, r, c, rs, f, j);
    assert forall x | x in RemoveAt(r[ALLOCATED], j) :: x in r[ALLOCATED];
    KeptSome(b, c, UsedCells(r), RemoveAt(r[ALLOCATED], j));
    KeptBy(b, c, d, RemoveAt(r[ALLOCATED], j));
    hide Covers, KeptFor, Proper, Governs, RemoveAt, Owns, UsedCells;
  }

  /** Nothing free begins where the first free block ends. */
  ghost predicate NoneBehind(b: Blocks, cells: seq<Addr>)
    requires cells != [] && cells[0] in b
  {
    b[cells[0]].end == 0 || forall i | 0 <= i < |cells| :: cells[i] in b && b[cells[i]].mapping != b[cells[0]].end
  }

  datatype Snapshot = Snapshot(blocks: Blocks, rings: seq<seq<Addr>>)

  /** From snapshot to snapshot one allocation of the given size. */
  ghost predicate AllocationRun(s: seq<Snapshot>, sizes: seq<nat>) {
    && |s| == |sizes| + 1
    && forall i | 0 <= i < |sizes| ::
         && sizes[i] > 0 && |s[i].rings| == 3 && s[i].rings[FREE] != [] && s[i].rings[FREE][0] in s[i].blocks
         && Taken(s[i].blocks, s[i].rings, s[i + 1].blocks, s[i + 1].rings, 0, sizes[i])
  }

  function Sum(sizes: seq<nat>): nat { if sizes == [] then 0 else Sum(sizes[..|sizes| - 1]) + sizes[|sizes| - 1] }

  /** Block k of the free ring can be used: the search comes to it, rings stay proper, its addresses can be added to. */
  ghost predicate Allocatable(b: Blocks, rings: seq<seq<Addr>>, k: nat, size: nat) {
    && |rings| == 3 && |rings[UNUSED]| <= 1 && FirstFit(b, rings[FREE], k, size) && (k > 0 || |rings[FREE]| <= 2)
    && b[rings[FREE][k]].mapping < SAFE_LIMIT && b[rings[FREE][k]].mapping + size < LIMIT
  }

  /**
    Allocations lie one behind the other: each begins at the sum of the sizes before it, and is
    possible exactly while that sum is below 2^24 (and the next end has five bytes).
  */
  lemma {:induction false} RunIsContiguous(s: seq<Snapshot>, sizes: seq<nat>, i: nat, size: nat)
    requires AllocationRun(s, sizes) && Steady(s[0].blocks, s[0].rings, 0) && i <= |sizes| && size > 0
    ensures Steady(s[i].blocks, s[i].rings, Sum(sizes[..i]))
    ensures s[i].rings[FREE] != [] && s[i].rings[FREE][0] in s[i].blocks
    ensures s[i].blocks[s[i].rings[FREE][0]].mapping == Sum(sizes[..i])
    ensures Allocatable(s[i].blocks, s[i].rings, 0, size) <==> Sum(sizes[..i]) < SAFE_LIMIT && Sum(sizes[..i]) + size < LIMIT
  {
    if i > 0 {
      RunIsContiguous(s, sizes, i - 1, size);
      assert sizes[..i][..i - 1] == sizes[..i - 1];
      TakenIsSteady(s[i - 1].blocks, s[i - 1].rings, s[i].blocks, s[i].rings, Sum(sizes[..i - 1]), sizes[i - 1]);
    }
    TakenIsSteady(s[i].blocks, s[i].rings, s[i].blocks, s[i].rings, Sum(sizes[..i]), size);
    hide Chain, Taken, FirstFit;
  }

  /** A file whose first allocations are so long and whose others are nodes. */
  ghost predicate NodeSizes(sizes: seq<nat>, first: seq<nat>) {
    first <= sizes && forall i | |first| <= i < |sizes| :: sizes[i] == NODE_SIZE
  }

  lemma {:induction false} NodeAddress(sizes: seq<nat>, first: seq<nat>, a: nat)
    requires NodeSizes(sizes, first) && |first| + a <= |sizes|
    ensures Sum(sizes[..|first| + a]) == Sum(first) + NODE_SIZE * a
  {
    if a == 0 {
      assert sizes[..|first|] == first;
    } else {
      NodeAddress(sizes, first, a - 1);
      assert sizes[..|first| + a][..|first| + a - 1] == sizes[..|first| + (a - 1)];
    }
  }

  /**
    In a run of allocations of nodes behind the first areas, node a lies at its place on the grid, and a
    further node can be had exactly while its address is below 2^24.
  */
  lemma NodesOnGrid(s: seq<Snapshot>, sizes: seq<nat>, first: seq<nat>, a: nat)
    requires AllocationRun(s, sizes) && Steady(s[0].blocks, s[0].rings, 0) && NodeSizes(sizes, first) && |first| + a <= |sizes|
    ensures var now := s[|first| + a];
            && |now.rings| == 3 && now.rings[FREE] != [] && now.rings[FREE][0] in now.blocks
            && now.blocks[now.rings[FREE][0]].mapping == Sum(first) + NODE_SIZE * a
            && (Allocatable(now.blocks, now.rings, 0, NODE_SIZE) <==> Sum(first) + NODE_SIZE * a < SAFE_LIMIT)
  {
    RunIsContiguous(s, sizes, |first| + a, NODE_SIZE);
    NodeAddress(sizes, first, a);
    hide AllocationRun, Allocatable, NodeSizes, Sum;
  }

  const META: nat := 100
  const COLLISION_OFFSET: nat := 51

  /** No node of a normal file has the address of a node of a safe file. */
  lemma NodesNeverMeet(normal: seq<nat>, safe: seq<nat>, a: nat, b: nat)
    requires NodeSizes(normal, [META]) && NodeSizes(safe, [META, COLLISION_OFFSET]) && 1 + a <= |normal| && 2 + b <= |safe|
    ensures Sum(normal[..1 + a]) == 100 + 103 * a && Sum(safe[..2 + b]) == 151 + 103 * b
    ensures Sum(normal[..1 + a]) != Sum(safe[..2 + b])
  {
    NodeAddress(normal, [META], a);
    NodeAddress(safe, [META, COLLISION_OFFSET], b);
    assert [META][..0] == [] && [META, COLLISION_OFFSET][..1] == [META];
    assert (100 + 103 * a) % 103 == 100 && (151 + 103 * b) % 103 == 48;
  }

  // ---------------------------------------------------------------- parts of the proofs about the object

  lemma TurnedRings(r: seq<seq<Addr>>, f: Addr, j: nat)
    requires |r| == 3 && j < |r[ALLOCATED]|
    ensures With(WithoutUnused(r), FREE, f)[ALLOCATED] == r[ALLOCATED]
    ensures var rs := Unused(With(WithoutUnused(r), FREE, f), ALLOCATED, j);
            rs[FREE] == [f] + r[FREE] && rs[ALLOCATED] == RemoveAt(r[ALLOCATED], j) && |rs| == 3
  {
  }

  lemma TurnedBy(b: Blocks, r: seq<seq<Addr>>, c: Blocks, rs: seq<seq<Addr>>, f: Addr, j: nat)
    requires |r| == 3 && j < |r[ALLOCATED]| && r[ALLOCATED][j] in b && KeptFor(b, c, UsedCells(r))
    requires |rs| == 3 && rs[FREE] == [f] + r[FREE] && rs[ALLOCATED] == RemoveAt(r[ALLOCATED], j)
    requires Governs(c, f, b[r[ALLOCATED][j]].mapping, b[r[ALLOCATED][j]].end)
    ensures Turned(b, r, c, rs, f, j)
  {
  }

  lemma TailApart(cells: seq<Addr>, k: nat)
    requires NoRepeats(cells) && 0 < k < |cells|
    ensures cells[0] !in RemoveAt(cells, k)[1..] && forall x | x in RemoveAt(cells, k)[1..] :: x in cells
  {
    LeftCells(cells, k);
    var r := RemoveAt(cells, k);
    assert r[0] == cells[0];
    assert forall x | x in r[1..] :: x in r;
  }

  lemma FewerFree(r: seq<seq<Addr>>, k: nat)
    requires |r| == 3 && k < |r[FREE]|
    ensures |Unused(r, FREE, k)| == 3 && |Unused(r, FREE, k)[FREE]| < |r[FREE]|
  {
  }

  lemma AbsorbsBy(b: Blocks, c: Blocks, r: seq<seq<Addr>>, k: nat, others: seq<Addr>)
    requires |r| == 3 && 0 < k < |r[FREE]| && r[FREE][0] in b && r[FREE][k] in b && b[r[FREE][0]].end == b[r[FREE][k]].mapping != 0
    requires Governs(c, r[FREE][0], b[r[FREE][0]].mapping, b[r[FREE][k]].end)
    requires others == RemoveAt(r[FREE], k)[1..] + r[ALLOCATED] && KeptFor(b, c, others)
    ensures Absorbs(b, c, r[FREE], k) && KeptFor(b, c, r[ALLOCATED])
  {
    KeptSome(b, c, others, RemoveAt(r[FREE], k)[1..]);
    KeptSome(b, c, others, r[ALLOCATED]);
  }

  /** A free block at 0 without end fits whatever is asked for. */
  lemma OnlyFirst(b: Blocks, size: nat)
    requires Governs(b, FIRST_BLOCK, 0, 0)
    ensures FirstFit(b, [FIRST_BLOCK], 0, size) && Chained(b, [FIRST_BLOCK])
  {
  }

  /** The blocks after formatting over a file in use whose free block is f. */
  ghost predicate FormattedTo(b: Blocks, f: Addr, c: Blocks) {
    && c.Keys == b.Keys && f in c && Governs(c, FIRST_BLOCK, 0, 0)
    && Ring(c, if f == FIRST_BLOCK then [FIRST_BLOCK] else [FIRST_BLOCK, f])
    && (forall x | x in b && x != FIRST_BLOCK && x != f :: c[x] == b[x])
  }

  lemma FormattedFree(b: Blocks, f: Addr)
    requires FIRST_BLOCK in b && Joined(b, f, f, f) && f != NULL
    ensures var c := b[FIRST_BLOCK := Block(FIRST_BLOCK, FIRST_BLOCK, 0, 0)];
            c[f].prev in c && FormattedTo(b, f, Entered(c, f, FIRST_BLOCK))
  {
  }

  lemma FormattedAllocated(b: Blocks, f: Addr, c: Blocks, cells: seq<Addr>)
    requires Ring(b, cells) && f !in cells && FormattedTo(b, f, c)
    ensures Ring(c, cells) <==> FIRST_BLOCK !in cells
  {
    if FIRST_BLOCK in cells {
      var i :| 0 <= i < |cells| && cells[i] == FIRST_BLOCK;
      var r := [FIRST_BLOCK, f];
      assert f != FIRST_BLOCK && r[0] == FIRST_BLOCK && NextCell(r, 0) == f;
      assert c[FIRST_BLOCK].next == f by { assert Joined(c, r[0], PrevCell(r, 0), NextCell(r, 0)); }
      assert !Joined(c, cells[i], PrevCell(cells, i), NextCell(cells, i));
    } else {
      forall i | 0 <= i < |cells| ensures Joined(c, cells[i], PrevCell(cells, i), NextCell(cells, i)) {
        assert Joined(b, cells[i], PrevCell(cells, i), NextCell(cells, i));
      }
    }
  }

  /** A file in use has a second block. */
  lemma UsedHasTwo(b: Blocks, tail: Addr, rings: seq<seq<Addr>>, total: nat)
    requires |rings| == 3 && Linked(b, tail, rings, {}) && Steady(b, rings, total) && total > 0
    ensures Joined(b, rings[FREE][0], rings[FREE][0], rings[FREE][0]) && rings[FREE][0] !in rings[ALLOCATED]
    ensures Ring(b, rings[ALLOCATED]) && FIRST_BLOCK in b && FIRST_BLOCK + BLOCK_SIZE in b
  {
    var f, a := rings[FREE][0], rings[ALLOCATED][0];
    assert Ring(b, rings[FREE]) && Ring(b, rings[ALLOCATED]) && Disjoint(rings[FREE], rings[ALLOCATED]);
    assert f in rings[FREE] && a in rings[ALLOCATED];
    assert f in b && a in b;
    hide Rings, RingSets.Sorted, Steady, Chain, OnGrid;
    AloneOrNot(b, rings[FREE], 0);
    TwoOnGrid(b, tail, f, a);
  }

  lemma TwoOnGrid(b: Blocks, tail: Addr, f: Addr, a: Addr)
    requires OnGrid(b, tail) && f in b && a in b && f != a
    ensures FIRST_BLOCK in b && FIRST_BLOCK + BLOCK_SIZE in b
  {
    assert tail >= FIRST_BLOCK + BLOCK_SIZE;
  }

  lemma FormattedIsLinked(b: Blocks)
    ensures b == map[FIRST_BLOCK := Block(FIRST_BLOCK, FIRST_BLOCK, 0, 0)] ==>
      var rings := [[FIRST_BLOCK], [], []];
      Headed(b, FIRST_BLOCK, rings, {}, FIRST_BLOCK, NULL, NULL) && Steady(b, rings, 0)
  {
    if b == map[FIRST_BLOCK := Block(FIRST_BLOCK, FIRST_BLOCK, 0, 0)] {
      var rings: seq<seq<Addr>> := [[FIRST_BLOCK], [], []];
      assert Joined(b, FIRST_BLOCK, FIRST_BLOCK, FIRST_BLOCK);
      assert Ring(b, rings[FREE]) && Ring(b, rings[ALLOCATED]) && Ring(b, rings[UNUSED]);
      assert FIRST_BLOCK in rings[FREE];
      assert InRings(rings, FIRST_BLOCK);
    }
  }

  lemma InUseAll(rings: seq<seq<Addr>>)
    requires |rings| == 3
    ensures InUse(rings, UsedCells(rings))
  {
  }

  lemma InUseMore(rings: seq<seq<Addr>>, n: Addr)
    requires |rings| == 3
    ensures InUse(With(WithoutUnused(rings), ALLOCATED, n), UsedCells(rings) + [n])
  {
  }

  lemma GovernsOn(b: Blocks, c: Blocks, n: Addr, mapping: nat, end: nat)
    requires Governs(b, n, mapping, end) && Kept(b, c)
    ensures Governs(c, n, mapping, end)
  {
  }

  lemma KeptOne(b: Blocks, c: Blocks, all: seq<Addr>, t: Addr)
    requires KeptFor(b, c, all) && t in all
    ensures t in b && Governs(c, t, b[t].mapping, b[t].end) && t in c && c[t].mapping == b[t].mapping && c[t].end == b[t].end
    ensures forall size :: Splits(c[t], size) == Splits(b[t], size)
  {
    var i :| 0 <= i < |all| && all[i] == t;
    assert Governs(c, all[i], b[all[i]].mapping, b[all[i]].end);
  }

  lemma KeptParts(a: Blocks, b: Blocks, c: Blocks, all: seq<Addr>, n: Addr, mapping: nat, end: nat)
    requires KeptFor(a, b, all) && KeptFor(b, c, all + [n]) && Governs(b, n, mapping, end)
    ensures KeptFor(a, c, all) && Governs(c, n, mapping, end)
  {
    KeptSome(b, c, all + [n], all);
    KeptBy(a, b, c, all);
    assert (all + [n])[|all|] == n;
  }

  lemma GovernsIs(b: Blocks, n: Addr, mapping: nat, end: nat)
    requires n in b && b[n].mapping == mapping && b[n].end == end
    ensures Governs(b, n, mapping, end)
  {
  }
}
