/** All rings of control blocks of a file together: blocks leave one and enter another. */
module RingSets {
  import opened Seqs
  import opened BTreeSpec
  import opened ControlBlocks

  const FIRST_BLOCK: Addr := 100
  const BLOCK_SIZE: nat := 20

  const FREE: nat := 0
  const ALLOCATED: nat := 1
  const UNUSED: nat := 2

  // ---------------------------------------------------------------- all rings together

  ghost predicate Disjoint(a: seq<Addr>, b: seq<Addr>) { forall x | x in a :: x !in b }

  ghost predicate Rings(b: Blocks, rings: seq<seq<Addr>>) {
    && (forall i | 0 <= i < |rings| :: Ring(b, rings[i]))
    && (forall i, j | 0 <= i < |rings| && 0 <= j < |rings| && i != j :: Disjoint(rings[i], rings[j]))
  }

  ghost predicate InRings(rings: seq<seq<Addr>>, x: Addr) { exists i :: 0 <= i < |rings| && x in rings[i] }

  /** Every block is in one ring, or held in hand. */
  ghost predicate Sorted(b: Blocks, rings: seq<seq<Addr>>, held: set<Addr>) {
    && (forall x | x in b :: x in held || InRings(rings, x))
    && (forall x | x in held :: x in b && x != NULL && !InRings(rings, x))
  }

  /** Blocks lie one after another from the first to the last one handed out. */
  ghost predicate OnGrid(b: Blocks, tail: Addr) {
    FIRST_BLOCK <= tail && (tail - FIRST_BLOCK) % BLOCK_SIZE == 0
    && forall x :: x in b <==> FIRST_BLOCK <= x <= tail && (x - FIRST_BLOCK) % BLOCK_SIZE == 0
  }

  ghost predicate Linked(b: Blocks, tail: Addr, rings: seq<seq<Addr>>, held: set<Addr>) {
    Rings(b, rings) && Sorted(b, rings, held) && OnGrid(b, tail)
  }

  /** A ring changed by link writes to its own cells only; the other rings do not notice. */
  lemma RingsChange(b: Blocks, c: Blocks, rings: seq<seq<Addr>>, i: nat, cells: seq<Addr>, touched: seq<Addr>)
    requires Rings(b, rings) && i < |rings| && Ring(c, cells) && OnlyLinks(b, c, touched)
    requires forall x | x in cells || x in touched :: x in rings[i] || !InRings(rings, x)
    ensures Rings(c, rings[i := cells])
  {
    var rs := rings[i := cells];
    forall j | 0 <= j < |rs| ensures Ring(c, rs[j]) {
      if j != i {
        forall k | 0 <= k < |rings[j]| ensures rings[j][k] !in touched {
          assert rings[j][k] in rings[j];
          assert Disjoint(rings[i], rings[j]) && Disjoint(rings[j], rings[i]);
        }
        RingFrame(b, c, rings[j], touched);
      }
    }
    forall j, k | 0 <= j < |rs| && 0 <= k < |rs| && j != k ensures Disjoint(rs[j], rs[k]) {
      assert Disjoint(rings[j], rings[k]);
      forall x | x in rs[j] ensures x !in rs[k] {
        assert x in rings[j] ==> InRings(rings, x);
        assert x in rings[k] ==> InRings(rings, x);
      }
    }
  }

  /** A block in hand enters ring i at its head. */
  lemma EnterLinked(b: Blocks, tail: Addr, rings: seq<seq<Addr>>, held: set<Addr>, i: nat, t: Addr)
    requires Linked(b, tail, rings, held) && i < |rings| && t in held
    ensures t in b && (rings[i] != [] ==> rings[i][0] in b && b[rings[i][0]].prev in b)
    ensures Linked(Entered(b, Head(rings[i]), t), tail, rings[i := [t] + rings[i]], held - {t})
    ensures SameRanges(b, Entered(b, Head(rings[i]), t))
  {
    assert t in rings[i] ==> InRings(rings, t);
    EnterRing(b, rings[i], t);
    var c, r := Entered(b, Head(rings[i]), t), [t] + rings[i];
    RingsChange(b, c, rings, i, r, r);
    EnterSorted(b, c, rings, held, i, t);
  }

  lemma EnterSorted(b: Blocks, c: Blocks, rings: seq<seq<Addr>>, held: set<Addr>, i: nat, t: Addr)
    requires Sorted(b, rings, held) && b.Keys == c.Keys && i < |rings| && t in held
    ensures Sorted(c, rings[i := [t] + rings[i]], held - {t})
  {
    var rs := rings[i := [t] + rings[i]];
    forall x ensures InRings(rs, x) <==> InRings(rings, x) || x == t {
      if InRings(rings, x) {
        var j :| 0 <= j < |rings| && x in rings[j];
        assert x in rs[j];
      }
      if x == t { assert x in rs[i]; }
    }
  }

  /** The rings with cells in place of ring i, which lost the block t. */
  lemma LeaveSorted(b: Blocks, c: Blocks, rings: seq<seq<Addr>>, held: set<Addr>, i: nat, t: Addr, cells: seq<Addr>)
    requires Rings(b, rings) && Sorted(b, rings, held) && b.Keys == c.Keys && i < |rings| && t in rings[i]
    requires forall x :: x in cells <==> x in rings[i] && x != t
    ensures Sorted(c, rings[i := cells], held + {t})
  {
    var rs := rings[i := cells];
    assert InRings(rings, t);
    InRingIsBlock(b, rings, t);
    hide *;
    forall x ensures InRings(rs, x) <==> InRings(rings, x) && x != t { LeaveIn(b, rings, i, t, cells, x); }
    SortedWithout(b, c, rings, rs, held, t);
  }

  lemma SortedWithout(b: Blocks, c: Blocks, rings: seq<seq<Addr>>, rs: seq<seq<Addr>>, held: set<Addr>, t: Addr)
    requires Sorted(b, rings, held) && b.Keys == c.Keys && t in b && t != NULL
    requires forall x :: InRings(rs, x) <==> InRings(rings, x) && x != t
    ensures Sorted(c, rs, held + {t})
  {
    hide InRings;
  }

  lemma LeaveIn(b: Blocks, rings: seq<seq<Addr>>, i: nat, t: Addr, cells: seq<Addr>, x: Addr)
    requires Rings(b, rings) && i < |rings| && t in rings[i] && (x in cells <==> x in rings[i] && x != t)
    ensures InRings(rings[i := cells], x) <==> InRings(rings, x) && x != t
  {
    var rs := rings[i := cells];
    hide Ring;
    if InRings(rings, x) && x != t {
      var j :| 0 <= j < |rings| && x in rings[j];
      assert x in rs[j];
    }
    if InRings(rs, x) {
      var j :| 0 <= j < |rs| && x in rs[j];
      assert x in rings[j];
      if j != i { assert Disjoint(rings[i], rings[j]); }
    }
  }

  lemma InRingIsBlock(b: Blocks, rings: seq<seq<Addr>>, x: Addr)
    requires Rings(b, rings) && InRings(rings, x)
    ensures x in b && x != NULL
  {
    var i :| 0 <= i < |rings| && x in rings[i];
    var k :| 0 <= k < |rings[i]| && rings[i][k] == x;
    assert Joined(b, x, PrevCell(rings[i], k), NextCell(rings[i], k));
  }

  /** Any block but the head leaves ring i by unlinking. */
  lemma LeaveLinked(b: Blocks, tail: Addr, rings: seq<seq<Addr>>, held: set<Addr>, i: nat, k: nat)
    requires Linked(b, tail, rings, held) && i < |rings| && 0 < k < |rings[i]|
    ensures var t := rings[i][k];
            && t in b && b[t].next in b && b[t].prev in b
            && Linked(Unlinked(b, t), tail, rings[i := RemoveAt(rings[i], k)], held + {t})
            && SameRanges(b, Unlinked(b, t))
  {
    var cells := rings[i];
    LeaveRing(b, cells, k);
    Neighbours(b, cells, k);
    LeftCells(cells, k);
    RingsChange(b, Unlinked(b, cells[k]), rings, i, RemoveAt(cells, k), cells);
    LeaveSorted(b, Unlinked(b, cells[k]), rings, held, i, cells[k], RemoveAt(cells, k));
  }

  /** The only block of ring i is taken out without any write to a block. */
  lemma LastLinked(b: Blocks, tail: Addr, rings: seq<seq<Addr>>, held: set<Addr>, i: nat)
    requires Linked(b, tail, rings, held) && i < |rings| && |rings[i]| == 1
    ensures rings[i][0] in b && b[rings[i][0]].prev == rings[i][0] == b[rings[i][0]].next
    ensures Linked(b, tail, rings[i := []], held + {rings[i][0]})
  {
    var t := rings[i][0];
    assert Joined(b, t, PrevCell(rings[i], 0), NextCell(rings[i], 0));
    RingsChange(b, b, rings, i, [], []);
    LeaveSorted(b, b, rings, held, i, t, []);
  }

  /** The head of a ring of two leaves, in either of the two ways of the source. */
  lemma HeadLinked(b: Blocks, tail: Addr, rings: seq<seq<Addr>>, held: set<Addr>, i: nat)
    requires Linked(b, tail, rings, held) && i < |rings| && |rings[i]| == 2
    ensures var t := rings[i][0];
            && t in b && t != NULL && b[t].next == rings[i][1] && b[t].prev in b && b[t].next in b && b[t].next != t && b[t].prev != t
            && Linked(HeadLeft(b, t), tail, rings[i := rings[i][1..]], held + {t}) && SameRanges(b, HeadLeft(b, t))
            && Linked(HeadUsed(b, t), tail, rings[i := rings[i][1..]], held + {t}) && SameRanges(b, HeadUsed(b, t))
  {
    var cells := rings[i];
    HeadLeaves(b, cells);
    HeadIsUsed(b, cells);
    Neighbours(b, cells, 0);
    assert cells[1] != cells[0];
    var r := cells[1..];
    assert r == [cells[1]];
    RingsChange(b, HeadLeft(b, cells[0]), rings, i, r, cells);
    RingsChange(b, HeadUsed(b, cells[0]), rings, i, r, cells);
    LeaveSorted(b, HeadLeft(b, cells[0]), rings, held, i, cells[0], r);
    LeaveSorted(b, HeadUsed(b, cells[0]), rings, held, i, cells[0], r);
  }

  /** One more block behind the last one. */
  lemma NewLinked(b: Blocks, tail: Addr, rings: seq<seq<Addr>>, held: set<Addr>, block: Block)
    requires Linked(b, tail, rings, held)
    ensures tail + BLOCK_SIZE !in b
    ensures Linked(b[tail + BLOCK_SIZE := block], tail + BLOCK_SIZE, rings, held + {tail + BLOCK_SIZE})
  {
    var t := tail + BLOCK_SIZE;
    var c := b[t := block];
    forall i | 0 <= i < |rings| ensures Ring(c, rings[i]) {
      forall k | 0 <= k < |rings[i]| ensures Joined(c, rings[i][k], PrevCell(rings[i], k), NextCell(rings[i], k)) {
        assert Joined(b, rings[i][k], PrevCell(rings[i], k), NextCell(rings[i], k));
      }
    }
    if InRings(rings, t) { InRingIsBlock(b, rings, t); }
    GridGrows(b, tail, block);
  }

  lemma GridGrows(b: Blocks, tail: Addr, block: Block)
    requires OnGrid(b, tail)
    ensures OnGrid(b[tail + BLOCK_SIZE := block], tail + BLOCK_SIZE)
  {
  }

  /** Ranges change, links do not. */
  lemma RangeLinked(b: Blocks, tail: Addr, rings: seq<seq<Addr>>, held: set<Addr>, t: Addr, mapping: nat, end: nat)
    requires Linked(b, tail, rings, held) && t in b
    ensures Linked(b[t := b[t].(mapping := mapping, end := end)], tail, rings, held)
  {
    var c := b[t := b[t].(mapping := mapping, end := end)];
    forall i | 0 <= i < |rings| ensures Ring(c, rings[i]) {
      forall k | 0 <= k < |rings[i]| ensures Joined(c, rings[i][k], PrevCell(rings[i], k), NextCell(rings[i], k)) {
        assert Joined(b, rings[i][k], PrevCell(rings[i], k), NextCell(rings[i], k));
      }
    }
  }

  /** The blocks that were there govern what they governed. */
  ghost predicate Kept(b: Blocks, c: Blocks) {
    forall a | a in b :: a in c && c[a].mapping == b[a].mapping && c[a].end == b[a].end
  }

  /** Three kinds of blocks, and the heads of their rings. */
  ghost predicate Headed(b: Blocks, tail: Addr, rings: seq<seq<Addr>>, held: set<Addr>, freeHead: Addr, allocatedHead: Addr, unusedHead: Addr) {
    && |rings| == 3 && Linked(b, tail, rings, held)
    && freeHead == Head(rings[FREE]) && allocatedHead == Head(rings[ALLOCATED]) && unusedHead == Head(rings[UNUSED])
  }

  lemma HeadedLinked(b: Blocks, tail: Addr, rings: seq<seq<Addr>>, held: set<Addr>, freeHead: Addr, allocatedHead: Addr, unusedHead: Addr)
    requires Headed(b, tail, rings, held, freeHead, allocatedHead, unusedHead)
    ensures |rings| == 3 && Linked(b, tail, rings, held)
    ensures freeHead == Head(rings[FREE]) && allocatedHead == Head(rings[ALLOCATED]) && unusedHead == Head(rings[UNUSED])
  {
  }

  lemma NeverNull(b: Blocks, rings: seq<seq<Addr>>, i: nat)
    requires Rings(b, rings) && i < |rings|
    ensures Head(rings[i]) == NULL <==> rings[i] == []
  {
  }

  /** In a ring of two or more. */
  lemma HeadUsedIs(b: Blocks, t: Addr)
    requires t in b && t != NULL && b[t].next in b && b[t].prev in b && b[t].next != t && b[t].prev != t
    ensures var c := Unlinked(b, t);
            t in c && c[t] == b[t] && c.Keys == b.Keys && HeadUsed(b, t) == Entered(c, t, b[t].next)
  {
  }

  lemma HeadLeftIs(b: Blocks, t: Addr)
    requires t in b && t != NULL && b[t].next in b && b[t].prev in b && b[t].next != t && b[t].prev != t
    ensures var c := Entered(b, t, b[t].next);
            t in c && c[t].next in c && c[t].prev in c && c.Keys == b.Keys && HeadLeft(b, t) == Unlinked(c, t)
  {
  }

  lemma HeldApart(b: Blocks, rings: seq<seq<Addr>>, held: set<Addr>, i: nat, k: nat)
    requires Sorted(b, rings, held) && i < |rings| && k < |rings[i]|
    ensures rings[i][k] !in held
  {
    assert rings[i][k] in rings[i];
    assert InRings(rings, rings[i][k]);
  }

  lemma KeptNew(b: Blocks, t: Addr, block: Block)
    requires t !in b
    ensures Kept(b, b[t := block])
  {
  }

  lemma SameIsKept(b: Blocks, c: Blocks)
    requires SameRanges(b, c)
    ensures Kept(b, c)
  {
  }

  lemma SameRangesSelf(b: Blocks)
    ensures SameRanges(b, b)
  {
  }

  lemma NotNull(b: Blocks, tail: Addr, rings: seq<seq<Addr>>, held: set<Addr>, freeHead: Addr, allocatedHead: Addr, unusedHead: Addr, t: Addr)
    requires Headed(b, tail, rings, held, freeHead, allocatedHead, unusedHead) && t in held
    ensures t != NULL && t in b
  {
  }

  /** Block k of one ring is the head of that ring, or of none. */
  lemma WhichHead(b: Blocks, rings: seq<seq<Addr>>, which: nat, k: nat)
    requires Rings(b, rings) && which < |rings| && k < |rings[which]|
    ensures forall i | 0 <= i < |rings| :: Head(rings[i]) == rings[which][k] <==> i == which && k == 0
    ensures rings[which][k] in b && rings[which][k] != NULL
  {
    assert Joined(b, rings[which][k], PrevCell(rings[which], k), NextCell(rings[which], k));
    forall i | 0 <= i < |rings| ensures Head(rings[i]) == rings[which][k] <==> i == which && k == 0 {
      assert Ring(b, rings[i]) && (rings[i] != [] ==> rings[i][0] in rings[i]);
      assert i != which ==> Disjoint(rings[i], rings[which]);
    }
  }

  lemma AloneOrNot(b: Blocks, cells: seq<Addr>, k: nat)
    requires Ring(b, cells) && k < |cells|
    ensures cells[k] in b && b[cells[k]].prev in b && b[cells[k]].next in b && b[cells[k]].next != NULL
    ensures b[cells[k]].prev == cells[k] <==> |cells| == 1
    ensures b[cells[k]].next == cells[k] <==> |cells| == 1
  {
    assert Joined(b, cells[k], PrevCell(cells, k), NextCell(cells, k));
    if |cells| > 1 { Neighbours(b, cells, k); }
  }

  lemma HeadAfter(cells: seq<Addr>, k: nat)
    requires k < |cells|
    ensures Head(RemoveAt(cells, k)) == if k > 0 then cells[0] else if |cells| > 1 then cells[1] else NULL
  {
  }

  lemma EnterHeaded(b: Blocks, tail: Addr, rings: seq<seq<Addr>>, held: set<Addr>,
                    freeHead: Addr, allocatedHead: Addr, unusedHead: Addr, i: nat, t: Addr)
    requires Headed(b, tail, rings, held, freeHead, allocatedHead, unusedHead) && t in held && i < 3
    ensures t != NULL && t in b && |rings| == 3
    ensures var head := [freeHead, allocatedHead, unusedHead][i];
            && (head != NULL ==> head in b && b[head].prev in b)
            && var c := Entered(b, head, t);
               && SameRanges(b, c)
               && Headed(c, tail, With(rings, i, t), held - {t}, if i == FREE then t else freeHead,
                         if i == ALLOCATED then t else allocatedHead, if i == UNUSED then t else unusedHead)
  {
    EnterLinked(b, tail, rings, held, i, t);
    NeverNull(b, rings, i);
    NotNull(b, tail, rings, held, freeHead, allocatedHead, unusedHead, t);
    hide Linked, Entered, SameRanges;
  }

  /** The rings without block k of one of them. */
  ghost function Without(rings: seq<seq<Addr>>, which: nat, k: nat): (rs: seq<seq<Addr>>)
    requires which < |rings| && k < |rings[which]|
    ensures |rs| == |rings|
  {
    rings[which := RemoveAt(rings[which], k)]
  }

  /** The rings with t put in front of one of them. */
  ghost function With(rings: seq<seq<Addr>>, which: nat, t: Addr): (rs: seq<seq<Addr>>)
    requires which < |rings|
    ensures |rs| == |rings|
  {
    rings[which := [t] + rings[which]]
  }

  /** The rings after a block was taken for use. */
  ghost function WithoutUnused(rings: seq<seq<Addr>>): (rs: seq<seq<Addr>>)
    requires |rings| == 3
    ensures |rs| == 3
  {
    if rings[UNUSED] == [] then rings else Without(rings, UNUSED, 0)
  }

  /** A ring's head, when t was taken out whose next block is h. */
  function HeadWithout(head: Addr, t: Addr, h: Addr): Addr { if head != t then head else if h == t then NULL else h }

  /** After block k left ring i. */
  lemma LeaveHeaded(b: Blocks, tail: Addr, rings: seq<seq<Addr>>, held: set<Addr>,
                    freeHead: Addr, allocatedHead: Addr, unusedHead: Addr, i: nat, k: nat)
    requires Headed(b, tail, rings, held, freeHead, allocatedHead, unusedHead) && i < 3 && k < |rings[i]|
    requires k > 0 || |rings[i]| <= 2
    ensures |rings| == 3
    ensures var t := rings[i][k];
            && t in b && t != NULL && b[t].next in b && b[t].prev in b && b[t].next != NULL
            && (freeHead == t <==> i == FREE && k == 0) && (allocatedHead == t <==> i == ALLOCATED && k == 0)
            && (unusedHead == t <==> i == UNUSED && k == 0)
            && (b[t].prev == t <==> |rings[i]| == 1) && (b[t].next == t <==> |rings[i]| == 1)
            && SameRanges(b, LeftBlocks(b, t, k))
            && Headed(LeftBlocks(b, t, k), tail, Without(rings, i, k), held + {t}, HeadWithout(freeHead, t, b[t].next),
                      HeadWithout(allocatedHead, t, b[t].next), HeadWithout(unusedHead, t, b[t].next))
  {
    HeadedLinked(b, tail, rings, held, freeHead, allocatedHead, unusedHead);
    WhichHead(b, rings, i, k);
    AloneOrNot(b, rings[i], k);
    LeaveAnyway(b, tail, rings, held, i, k);
    HeadsLeft(b, rings, i, k, 0);
    HeadsLeft(b, rings, i, k, 1);
    HeadsLeft(b, rings, i, k, 2);
    hide Linked, SameRanges, LeftBlocks, RemoveAt, Head, HeadWithout, Rings, Without;
    HeadedBy(LeftBlocks(b, rings[i][k], k), tail, Without(rings, i, k), held + {rings[i][k]});
  }

  lemma HeadsLeft(b: Blocks, rings: seq<seq<Addr>>, i: nat, k: nat, j: nat)
    requires Rings(b, rings) && i < |rings| && j < |rings| && k < |rings[i]| && (k > 0 || |rings[i]| <= 2) && rings[i][k] in b
    requires b[rings[i][k]].next == rings[i][k] <==> |rings[i]| == 1
    requires Head(rings[j]) == rings[i][k] <==> i == j && k == 0
    ensures Head(Without(rings, i, k)[j]) == HeadWithout(Head(rings[j]), rings[i][k], b[rings[i][k]].next)
  {
    if j == i { HeadAfter(rings[i], k); }
    assert Ring(b, rings[i]);
    assert Joined(b, rings[i][k], PrevCell(rings[i], k), NextCell(rings[i], k));
  }

  lemma HeadsWithout(freeHead: Addr, allocatedHead: Addr, unusedHead: Addr, t: Addr, h: Addr)
    ensures HeadWithout(freeHead, t, h) == if freeHead == t then (if h == t then NULL else h) else freeHead
    ensures HeadWithout(allocatedHead, t, h) == if allocatedHead == t then (if h == t then NULL else h) else allocatedHead
    ensures HeadWithout(unusedHead, t, h) == if unusedHead == t then (if h == t then NULL else h) else unusedHead
  {
  }

  lemma NewHeaded(b: Blocks, tail: Addr, rings: seq<seq<Addr>>, held: set<Addr>, freeHead: Addr, allocatedHead: Addr, unusedHead: Addr)
    requires Headed(b, tail, rings, held, freeHead, allocatedHead, unusedHead)
    ensures tail + BLOCK_SIZE !in b
    ensures Headed(b[tail + BLOCK_SIZE := Block(0, 0, 0, 0)], tail + BLOCK_SIZE, rings, held + {tail + BLOCK_SIZE},
                   freeHead, allocatedHead, unusedHead)
  {
    NewLinked(b, tail, rings, held, Block(0, 0, 0, 0));
    hide Linked, Head;
  }

  lemma HeadedBy(b: Blocks, tail: Addr, rings: seq<seq<Addr>>, held: set<Addr>)
    requires |rings| == 3 && Linked(b, tail, rings, held)
    ensures Headed(b, tail, rings, held, Head(rings[0]), Head(rings[1]), Head(rings[2]))
  {
  }

  lemma LeaveAnyway(b: Blocks, tail: Addr, rings: seq<seq<Addr>>, held: set<Addr>, i: nat, k: nat)
    requires Linked(b, tail, rings, held) && i < |rings| && k < |rings[i]| && (k > 0 || |rings[i]| <= 2)
    ensures var t := rings[i][k];
            && t in b && t != NULL && b[t].next in b && b[t].prev in b
            && (|rings[i]| == 2 && k == 0 ==> b[t].next == rings[i][1])
            && Linked(LeftBlocks(b, t, k), tail, rings[i := RemoveAt(rings[i], k)], held + {t})
            && SameRanges(b, LeftBlocks(b, t, k))
  {
    var cells := rings[i];
    AloneOrNot(b, cells, k);
    WhichHead(b, rings, i, k);
    SameRangesSelf(b);
    if |cells| == 1 {
      LastLinked(b, tail, rings, held, i);
      assert RemoveAt(cells, k) == [];
    } else if k == 0 {
      HeadLinked(b, tail, rings, held, i);
      assert RemoveAt(cells, k) == cells[1..];
    } else {
      LeaveLinked(b, tail, rings, held, i, k);
    }
    hide Linked, SameRanges, RemoveAt, HeadLeft, Unlinked;
  }

  /** The blocks after t, at place k of its ring, was taken out. */
  function LeftBlocks(b: Blocks, t: Addr, k: nat): Blocks
    requires t in b && t != NULL && b[t].next in b && b[t].prev in b
  {
    if b[t].next == t then b else if k == 0 then HeadLeft(b, t) else Unlinked(b, t)
  }

  lemma LeftBlocksIs(b: Blocks, t: Addr, k: nat)
    requires t in b && t != NULL && b[t].next in b && b[t].prev in b && (b[t].next == t <==> b[t].prev == t)
    ensures b[t].next == t ==> LeftBlocks(b, t, k) == b
    ensures b[t].next != t && k == 0 ==>
      var c := Entered(b, t, b[t].next);
      t in c && c[t].next in c && c[t].prev in c && LeftBlocks(b, t, k) == Unlinked(c, t)
    ensures b[t].next != t && k > 0 ==> LeftBlocks(b, t, k) == Unlinked(b, t)
  {
    if b[t].next != t { HeadLeftIs(b, t); }
    hide Entered, Unlinked, HeadLeft;
  }

  /** Block k of one ring moved to the front of the unused ones. */
  ghost function Unused(rings: seq<seq<Addr>>, which: nat, k: nat): seq<seq<Addr>>
    requires |rings| == 3 && which < 3 && k < |rings[which]|
  {
    With(Without(rings, which, k), UNUSED, rings[which][k])
  }

  lemma WithoutUnusedIs(rings: seq<seq<Addr>>)
    requires |rings| == 3
    ensures WithoutUnused(rings) == if rings[UNUSED] == [] then rings else Without(rings, UNUSED, 0)
  {
  }
}
