/** The allocator: free, allocated and unused control blocks, each kind in a ring of its own. */
module Allocator {
  import opened Seqs
  import opened BTreeSpec
  import opened OverlayPtr
  import opened ControlBlocks
  import opened RingSets
  import opened Ranges

  class OverlayMemoryAllocator {
    var blocks: Blocks
    var freeHead: Addr
    var allocatedHead: Addr
    var unusedHead: Addr
    var tail: Addr
    ghost var rings: seq<seq<Addr>>

    ghost predicate Valid(held: set<Addr>)
      reads this
    {
      Headed(blocks, tail, rings, held, freeHead, allocatedHead, unusedHead)
    }

    // -------------------------------------------------------------- ring heads

    method FreeBlockHead(t: Addr)
      requires t != NULL ==> t in blocks && (freeHead != NULL ==> freeHead in blocks && blocks[freeHead].prev in blocks)
      modifies this`blocks, this`freeHead
      ensures freeHead == t && blocks == if t == NULL then old(blocks) else Entered(old(blocks), old(freeHead), t)
    {
      if t != NULL {
        if freeHead == NULL { MakeSingle(t); } else { PutBefore(freeHead, t); }
      }
      freeHead := t;
    }

    method AllocatedBlockHead(t: Addr)
      requires t != NULL ==> t in blocks && (allocatedHead != NULL ==> allocatedHead in blocks && blocks[allocatedHead].prev in blocks)
      modifies this`blocks, this`allocatedHead
      ensures allocatedHead == t && blocks == if t == NULL then old(blocks) else Entered(old(blocks), old(allocatedHead), t)
    {
      if t != NULL {
        if allocatedHead == NULL { MakeSingle(t); } else { PutBefore(allocatedHead, t); }
      }
      allocatedHead := t;
    }

    method UnUsedControlBlockHead(t: Addr)
      requires t != NULL ==> t in blocks && (unusedHead != NULL ==> unusedHead in blocks && blocks[unusedHead].prev in blocks)
      modifies this`blocks, this`unusedHead
      ensures unusedHead == t && blocks == if t == NULL then old(blocks) else Entered(old(blocks), old(unusedHead), t)
    {
      if t != NULL {
        if unusedHead == NULL { MakeSingle(t); } else { PutBefore(unusedHead, t); }
      }
      unusedHead := t;
    }

    method MakeSingle(t: Addr)
      requires t in blocks
      modifies this`blocks
      ensures blocks == Entered(old(blocks), NULL, t)
    {
      blocks := blocks[t := blocks[t].(prev := t)];
      blocks := blocks[t := blocks[t].(next := t)];
    }

    /** Four link writes, each seeing the ones before. */
    method PutBefore(head: Addr, t: Addr)
      requires head != NULL && t in blocks && head in blocks && blocks[head].prev in blocks
      modifies this`blocks
      ensures blocks == Entered(old(blocks), head, t)
    {
      blocks := blocks[t := blocks[t].(next := head)];
      blocks := blocks[t := blocks[t].(prev := blocks[head].prev)];
      var last := blocks[head].prev;
      blocks := blocks[last := blocks[last].(next := t)];
      blocks := blocks[head := blocks[head].(prev := t)];
    }

    method Unlink(t: Addr)
      requires t in blocks && blocks[t].next in blocks && blocks[t].prev in blocks
      modifies this`blocks
      ensures blocks == Unlinked(old(blocks), t)
    {
      var next := blocks[t].next;
      blocks := blocks[next := blocks[next].(prev := blocks[t].prev)];
      var prev := blocks[t].prev;
      blocks := blocks[prev := blocks[prev].(next := blocks[t].next)];
    }

    // -------------------------------------------------------------- blocks in hand

    /** Behind the last block there is always room for one more. */
    method NewControlBlock(ghost held: set<Addr>) returns (t: Addr)
      requires Valid(held)
      modifies this`blocks, this`tail
      ensures t == tail == old(tail) + BLOCK_SIZE && t !in old(blocks) && blocks == old(blocks)[t := Block(0, 0, 0, 0)]
      ensures Valid(held + {t})
    {
      NewHeaded(blocks, tail, rings, held, freeHead, allocatedHead, unusedHead);
      hide Headed;
      t := tail + BLOCK_SIZE;
      blocks := blocks[t := Block(0, 0, 0, 0)];
      tail := t;
    }

    /** NULL when no block is unused. */
    method UseUnUsedControlBlockHead(ghost held: set<Addr>) returns (t: Addr)
      requires Valid(held) && |rings[UNUSED]| <= 2
      modifies this`blocks, this`unusedHead, this`rings
      ensures |old(rings)| == 3 && t == Head(old(rings)[UNUSED])
      ensures t == NULL ==> old(rings)[UNUSED] == [] && rings == old(rings) && blocks == old(blocks) && Valid(held)
      ensures t != NULL ==> old(rings)[UNUSED] != [] && rings == Without(old(rings), UNUSED, 0) && Valid(held + {t})
      ensures t != NULL ==> SameRanges(old(blocks), blocks) && t in blocks
    {
      t := unusedHead;
      hide *;
      CanUse(held);
      if t == NULL { return; }
      ghost var rs := Without(rings, UNUSED, 0);
      SameRangesSelf(blocks);
      if blocks[t].next == t {
        UnUsedControlBlockHead(NULL);
      } else {
        Unlink(t);
        UnUsedControlBlockHead(blocks[t].next);
      }
      rings := rs;
      ValidBy(held + {t});
    }

    lemma CanUse(held: set<Addr>)
      requires Valid(held) && |rings[UNUSED]| <= 2
      ensures |rings| == 3 && 0 <= UNUSED < 3 && unusedHead == Head(rings[UNUSED]) && (unusedHead == NULL <==> rings[UNUSED] == [])
      ensures var t := unusedHead;
              t != NULL ==>
                && t in blocks && blocks[t].next in blocks && blocks[t].prev in blocks && blocks[t].next != NULL
                && (blocks[t].next == t ==> Headed(blocks, tail, Without(rings, UNUSED, 0), held + {t}, freeHead, allocatedHead, NULL))
                && (blocks[t].next != t ==>
                      var c, h := Unlinked(blocks, t), blocks[t].next;
                      && t in c && t in Entered(c, t, h) && c[t] == blocks[t] && h in c && c[t].prev in c && SameRanges(blocks, Entered(c, t, h))
                      && Headed(Entered(c, t, h), tail, Without(rings, UNUSED, 0), held + {t}, freeHead, allocatedHead, h))
    {
      HeadedLinked(blocks, tail, rings, held, freeHead, allocatedHead, unusedHead);
      NeverNull(blocks, rings, UNUSED);
      var cells := rings[UNUSED];
      hide Unlinked, Entered;
      if cells != [] {
        AloneOrNot(blocks, cells, 0);
        assert RemoveAt(cells, 0) == cells[1..];
        if |cells| == 1 {
          LastLinked(blocks, tail, rings, held, UNUSED);
        } else {
          HeadLinked(blocks, tail, rings, held, UNUSED);
          HeadUsedIs(blocks, cells[0]);
        }
        hide Linked, SameRanges, HeadUsed, RemoveAt;
      }
    }

    method TakeBlock(ghost held: set<Addr>) returns (t: Addr)
      requires Valid(held) && |rings[UNUSED]| <= 2
      modifies this`blocks, this`tail, this`unusedHead, this`rings
      ensures |old(rings)| == 3 && Valid(held + {t}) && t in blocks && t !in held && t != NULL
      ensures rings == WithoutUnused(old(rings))
      ensures Kept(old(blocks), blocks)
    {
      ghost var b := blocks;
      HeadedLinked(blocks, tail, rings, held, freeHead, allocatedHead, unusedHead);
      if rings[UNUSED] != [] { HeldApart(blocks, rings, held, UNUSED, 0); }
      assert forall x | x in held :: x in blocks;
      NeverNull(blocks, rings, UNUSED);
      WithoutUnusedIs(rings);
      hide *;
      t := UseUnUsedControlBlockHead(held);
      if t == NULL {
        t := NewControlBlock(held);
        KeptNew(b, t, Block(0, 0, 0, 0));
        NotNull(blocks, tail, rings, held + {t}, freeHead, allocatedHead, unusedHead, t);
      } else {
        SameIsKept(b, blocks);
      }
    }

    /** The ring whose head is t becomes empty. */
    method ClearHead(t: Addr)
      modifies this`blocks, this`freeHead, this`allocatedHead, this`unusedHead
      ensures blocks == old(blocks)
      ensures freeHead == if old(freeHead) == t then NULL else old(freeHead)
      ensures allocatedHead == if old(freeHead) != t && old(allocatedHead) == t then NULL else old(allocatedHead)
      ensures unusedHead == if old(freeHead) != t && old(allocatedHead) != t && old(unusedHead) == t then NULL else old(unusedHead)
    {
      if freeHead == t { FreeBlockHead(NULL); }
      else if allocatedHead == t { AllocatedBlockHead(NULL); }
      else if unusedHead == t { UnUsedControlBlockHead(NULL); }
    }

    /** The block behind t enters before t where t is a head. */
    method AdvanceHead(t: Addr)
      requires t != NULL && t in blocks && blocks[t].next in blocks && blocks[t].prev in blocks && blocks[t].next != NULL
      modifies this`blocks, this`freeHead, this`allocatedHead, this`unusedHead
      ensures blocks == if t in [old(freeHead), old(allocatedHead), old(unusedHead)] then Entered(old(blocks), t, old(blocks)[t].next) else old(blocks)
      ensures freeHead == if old(freeHead) == t then old(blocks)[t].next else old(freeHead)
      ensures allocatedHead == if old(freeHead) != t && old(allocatedHead) == t then old(blocks)[t].next else old(allocatedHead)
      ensures unusedHead == if old(freeHead) != t && old(allocatedHead) != t && old(unusedHead) == t then old(blocks)[t].next else old(unusedHead)
    {
      hide Entered;
      if freeHead != NULL && freeHead == t { FreeBlockHead(blocks[t].next); }
      else if allocatedHead != NULL && allocatedHead == t { AllocatedBlockHead(blocks[t].next); }
      else if unusedHead != NULL && unusedHead == t { UnUsedControlBlockHead(blocks[t].next); }
    }

    /** The link writes by which t, at place k of its ring, leaves. */
    method Detach(t: Addr, ghost k: nat)
      requires t != NULL && t in blocks && blocks[t].next in blocks && blocks[t].prev in blocks && blocks[t].next != NULL
      requires blocks[t].next == t <==> blocks[t].prev == t
      requires k == 0 <==> freeHead == t || allocatedHead == t || unusedHead == t
      requires !(freeHead == t && allocatedHead == t) && !(freeHead == t && unusedHead == t) && !(allocatedHead == t && unusedHead == t)
      modifies this`blocks, this`freeHead, this`allocatedHead, this`unusedHead
      ensures blocks == LeftBlocks(old(blocks), t, k)
      ensures freeHead == HeadWithout(old(freeHead), t, old(blocks)[t].next)
      ensures allocatedHead == HeadWithout(old(allocatedHead), t, old(blocks)[t].next)
      ensures unusedHead == HeadWithout(old(unusedHead), t, old(blocks)[t].next)
    {
      LeftBlocksIs(blocks, t, k);
      HeadsWithout(freeHead, allocatedHead, unusedHead, t, blocks[t].next);
      hide *;
      if blocks[t].prev == t || blocks[t].next == t {
        ClearHead(t);
      } else {
        AdvanceHead(t);
        Unlink(t);
      }
    }

    /** t leaves its ring. The source takes the head of a longer ring out wrongly (HeadLeaves). */
    method TakeOut(t: Addr, ghost held: set<Addr>, ghost which: nat, ghost k: nat)
      requires Valid(held) && which < 3 && k < |rings[which]| && rings[which][k] == t
      requires k > 0 || |rings[which]| <= 2
      modifies this`blocks, this`freeHead, this`allocatedHead, this`unusedHead, this`rings
      ensures |old(rings)| == 3 && rings == Without(old(rings), which, k) && Valid(held + {t})
      ensures SameRanges(old(blocks), blocks)
    {
      hide *;
      CanDetach(t, held, which, k);
      ghost var rs := Without(rings, which, k);
      Detach(t, k);
      rings := rs;
      ValidBy(held + {t});
    }

    lemma CanDetach(t: Addr, held: set<Addr>, which: nat, k: nat)
      requires Valid(held) && which < 3 && k < |rings[which]| && rings[which][k] == t
      requires k > 0 || |rings[which]| <= 2
      ensures |rings| == 3
      ensures t != NULL && t in blocks && blocks[t].next in blocks && blocks[t].prev in blocks && blocks[t].next != NULL
      ensures blocks[t].next == t <==> blocks[t].prev == t
      ensures k == 0 <==> freeHead == t || allocatedHead == t || unusedHead == t
      ensures !(freeHead == t && allocatedHead == t) && !(freeHead == t && unusedHead == t) && !(allocatedHead == t && unusedHead == t)
      ensures SameRanges(blocks, LeftBlocks(blocks, t, k))
      ensures Headed(LeftBlocks(blocks, t, k), tail, Without(rings, which, k), held + {t}, HeadWithout(freeHead, t, blocks[t].next),
                     HeadWithout(allocatedHead, t, blocks[t].next), HeadWithout(unusedHead, t, blocks[t].next))
    {
      LeaveHeaded(blocks, tail, rings, held, freeHead, allocatedHead, unusedHead, which, k);
      hide Headed, LeftBlocks, HeadWithout, Without, SameRanges;
    }

    lemma ValidBy(held: set<Addr>)
      requires Headed(blocks, tail, rings, held, freeHead, allocatedHead, unusedHead)
      ensures Valid(held)
    {
    }

    /** t leaves its ring and becomes the head of the unused ones. */
    method ToUnUsedControlBlock(t: Addr, ghost held: set<Addr>, ghost which: nat, ghost k: nat)
      requires Valid(held) && which < 3 && k < |rings[which]| && rings[which][k] == t
      requires k > 0 || |rings[which]| <= 2
      modifies this`blocks, this`freeHead, this`allocatedHead, this`unusedHead, this`rings
      ensures |old(rings)| == 3 && rings == Unused(old(rings), which, k)
      ensures Valid(held) && SameRanges(old(blocks), blocks)
    {
      HeldApart(blocks, rings, held, which, k);
      assert held + {t} - {t} == held;
      TakeOut(t, held, which, k);
      EnterUnused(t, held + {t});
    }

    lemma CanEnterUnused(t: Addr, held: set<Addr>)
      requires Valid(held) && t in held
      ensures t != NULL && t in blocks && |rings| == 3 && 0 <= UNUSED < 3
      ensures unusedHead != NULL ==> unusedHead in blocks && blocks[unusedHead].prev in blocks
      ensures SameRanges(blocks, Entered(blocks, unusedHead, t))
      ensures Headed(Entered(blocks, unusedHead, t), tail, With(rings, UNUSED, t), held - {t}, freeHead, allocatedHead, t)
    {
      EnterHeaded(blocks, tail, rings, held, freeHead, allocatedHead, unusedHead, UNUSED, t);
      hide Headed, Entered, With, SameRanges;
    }

    method EnterUnused(t: Addr, ghost held: set<Addr>)
      requires Valid(held) && t in held
      modifies this`blocks, this`unusedHead, this`rings
      ensures |old(rings)| == 3 && rings == With(old(rings), UNUSED, t) && Valid(held - {t})
      ensures SameRanges(old(blocks), blocks)
    {
      hide *;
      CanEnterUnused(t, held);
      ghost var rs := With(rings, UNUSED, t);
      UnUsedControlBlockHead(t);
      rings := rs;
      ValidBy(held - {t});
    }

    lemma CanEnterFree(t: Addr, held: set<Addr>)
      requires Valid(held) && t in held
      ensures t != NULL && t in blocks && |rings| == 3 && 0 <= FREE < 3
      ensures freeHead != NULL ==> freeHead in blocks && blocks[freeHead].prev in blocks
      ensures SameRanges(blocks, Entered(blocks, freeHead, t))
      ensures Headed(Entered(blocks, freeHead, t), tail, With(rings, FREE, t), held - {t}, t, allocatedHead, unusedHead)
    {
      EnterHeaded(blocks, tail, rings, held, freeHead, allocatedHead, unusedHead, FREE, t);
      hide Headed, Entered, With, SameRanges;
    }

    method EnterFree(t: Addr, ghost held: set<Addr>)
      requires Valid(held) && t in held
      modifies this`blocks, this`freeHead, this`rings
      ensures |old(rings)| == 3 && rings == With(old(rings), FREE, t) && Valid(held - {t})
      ensures SameRanges(old(blocks), blocks)
    {
      hide *;
      CanEnterFree(t, held);
      ghost var rs := With(rings, FREE, t);
      FreeBlockHead(t);
      rings := rs;
      ValidBy(held - {t});
    }

    lemma CanEnterAllocated(t: Addr, held: set<Addr>)
      requires Valid(held) && t in held
      ensures t != NULL && t in blocks && |rings| == 3 && 0 <= ALLOCATED < 3
      ensures allocatedHead != NULL ==> allocatedHead in blocks && blocks[allocatedHead].prev in blocks
      ensures SameRanges(blocks, Entered(blocks, allocatedHead, t))
      ensures Headed(Entered(blocks, allocatedHead, t), tail, With(rings, ALLOCATED, t), held - {t}, freeHead, t, unusedHead)
    {
      EnterHeaded(blocks, tail, rings, held, freeHead, allocatedHead, unusedHead, ALLOCATED, t);
      hide Headed, Entered, With, SameRanges;
    }

    method EnterAllocated(t: Addr, ghost held: set<Addr>)
      requires Valid(held) && t in held
      modifies this`blocks, this`allocatedHead, this`rings
      ensures |old(rings)| == 3 && rings == With(old(rings), ALLOCATED, t) && Valid(held - {t})
      ensures SameRanges(old(blocks), blocks)
    {
      hide *;
      CanEnterAllocated(t, held);
      ghost var rs := With(rings, ALLOCATED, t);
      AllocatedBlockHead(t);
      rings := rs;
      ValidBy(held - {t});
    }

    // -------------------------------------------------------------- allocation

    method SetMapping(t: Addr, mapping: nat, ghost held: set<Addr>)
      requires Valid(held) && t in blocks
      modifies this`blocks
      ensures Valid(held) && t in old(blocks) && blocks == old(blocks)[t := old(blocks)[t].(mapping := mapping)]
    {
      RangeLinked(blocks, tail, rings, held, t, mapping, blocks[t].end);
      hide Linked;
      blocks := blocks[t := blocks[t].(mapping := mapping)];
    }

    method SetEnd(t: Addr, end: nat, ghost held: set<Addr>)
      requires Valid(held) && t in blocks
      modifies this`blocks
      ensures Valid(held) && t in old(blocks) && blocks == old(blocks)[t := old(blocks)[t].(end := end)]
    {
      RangeLinked(blocks, tail, rings, held, t, blocks[t].mapping, end);
      hide Linked;
      blocks := blocks[t := blocks[t].(end := end)];
    }

    /** Follows the free blocks to the first one that fits; the source never stops when there is none. */
    method FindFreeBlock(size: nat, ghost cells: seq<Addr>, ghost k: nat) returns (t: Addr)
      requires Chained(blocks, cells) && freeHead == cells[0] && FirstFit(blocks, cells, k, size)
      ensures k < |cells| && t == cells[k]
    {
      hide Fits;
      t := freeHead;
      ghost var i := 0;
      while !Fits(blocks[t], size)
        invariant i <= k < |cells| && t == cells[i] && t in blocks
        decreases k - i
      {
        t := blocks[t].next;
        i := i + 1;
      }
    }

    /** Where an allocation of this size begins. */
    method AddressFor(size: nat, ghost cells: seq<Addr>, ghost k: nat) returns (at: nat)
      requires Chained(blocks, cells) && freeHead == cells[0] && FirstFit(blocks, cells, k, size)
      ensures k < |cells| && cells[k] in blocks && at == blocks[cells[k]].mapping
    {
      var t := FindFreeBlock(size, cells, k);
      at := blocks[t].mapping;
    }

    /** A block is taken in hand and made to govern a range. */
    method TakeFor(mapping: nat, end: nat, ghost cells: seq<Addr>) returns (n: Addr)
      requires Valid({}) && |rings| == 3 && |rings[UNUSED]| <= 2 && InUse(rings, cells)
      modifies this`blocks, this`tail, this`unusedHead, this`rings
      ensures |old(rings)| == 3 && rings == WithoutUnused(old(rings)) && Valid({n}) && n != NULL
      ensures KeptFor(old(blocks), blocks, cells) && Governs(blocks, n, mapping, end)
    {
      ghost var b := blocks;
      UsedAreBlocks(blocks, tail, rings, {}, freeHead, allocatedHead, unusedHead, cells);
      UsedStay(rings, cells);
      hide *;
      n := TakeBlock({});
      assert {} + {n} == {n};
      KeptOn(b, b, blocks, cells);
      NotInUse(n, cells);
      ghost var c := blocks;
      SetMapping(n, mapping, {n});
      KeptSet(b, c, cells, n, c[n].(mapping := mapping));
      c := blocks;
      SetEnd(n, end, {n});
      KeptSet(b, c, cells, n, c[n].(end := end));
      GovernsIs(blocks, n, mapping, end);
    }

    lemma NotInUse(n: Addr, cells: seq<Addr>)
      requires Valid({n}) && |rings| == 3 && InUse(rings, cells)
      ensures n !in cells
    {
      UsedAreBlocks(blocks, tail, rings, {n}, freeHead, allocatedHead, unusedHead, cells);
    }

    /** The rest of a free block becomes a free block of its own, the block itself is unused from now on. */
    method PutRest(t: Addr, from: nat, ghost k: nat, ghost cells: seq<Addr>) returns (m: Addr)
      requires Valid({}) && |rings| == 3 && rings[UNUSED] == [] && k < |rings[FREE]| && rings[FREE][k] == t && t in blocks
      requires (k > 0 || |rings[FREE]| <= 2) && InUse(rings, cells)
      modifies this
      ensures |old(rings)| == 3 && k < |old(rings)[FREE]| && t in old(blocks)
      ensures Valid({}) && rings == With(Unused(old(rings), FREE, k), FREE, m)
      ensures KeptFor(old(blocks), blocks, cells) && Governs(blocks, m, from, old(blocks)[t].end)
    {
      WithoutUnusedIs(rings);
      ghost var b, r := blocks, rings;
      UsedAreBlocks(blocks, tail, rings, {}, freeHead, allocatedHead, unusedHead, cells);
      assert 0 <= FREE < 3;
      hide *;
      m := TakeFor(from, blocks[t].end, cells);
      ghost var c := blocks;
      ToUnUsedControlBlock(t, {m}, FREE, k);
      SameIsKept(c, blocks);
      KeptOn(b, c, blocks, cells);
      GovernsOn(c, blocks, m, from, b[t].end);
      c := blocks;
      EnterFree(m, {m});
      SameIsKept(c, blocks);
      KeptOn(b, c, blocks, cells);
      GovernsOn(c, blocks, m, from, b[t].end);
      assert {m} - {m} == {};
    }

    lemma CanAllocate(size: nat, k: nat)
      requires Valid({}) && Allocatable(blocks, rings, k, size)
      ensures |rings| == 3 && 0 <= FREE < 3 && |rings[UNUSED]| <= 1 && FirstFit(blocks, rings[FREE], k, size)
      ensures k < |rings[FREE]| && (k > 0 || |rings[FREE]| <= 2) && rings[FREE][k] in blocks && rings[FREE][k] in UsedCells(rings)
      ensures blocks[rings[FREE][k]].mapping < SAFE_LIMIT && blocks[rings[FREE][k]].mapping + size < LIMIT
      ensures InUse(rings, UsedCells(rings)) && KeptFor(blocks, blocks, UsedCells(rings))
      ensures Chained(blocks, rings[FREE]) && freeHead == rings[FREE][0]
    {
      FreeRing();
      RingIsChained(blocks, rings[FREE]);
      InUseAll(rings);
      UsedAreBlocks(blocks, tail, rings, {}, freeHead, allocatedHead, unusedHead, UsedCells(rings));
      hide Valid;
    }

    /** Takes the first free block that fits; what is left of it becomes a free block of its own. */
    method Allocate(size: nat, ghost k: nat) returns (at: nat)
      requires Valid({}) && Allocatable(blocks, rings, k, size)
      modifies this
      ensures Valid({}) && |old(rings)| == 3 && k < |old(rings)[FREE]| && old(rings)[FREE][k] in old(blocks)
      ensures Taken(old(blocks), old(rings), blocks, rings, k, size) && at == old(blocks)[old(rings)[FREE][k]].mapping
    {
      hide *;
      CanAllocate(size, k);
      ghost var b, r, all := blocks, rings, UsedCells(rings);
      var t := FindFreeBlock(size, rings[FREE], k);
      var from := blocks[t].mapping;
      var n := TakeFor(from, Moved(from, size), all);
      ghost var c := blocks;
      EnterAllocated(n, {n});
      assert {n} - {n} == {};
      SameIsKept(c, blocks);
      KeptOn(b, c, blocks, all);
      GovernsOn(c, blocks, n, from, from + size);
      at := from;
      SplitRings(r, n, NULL, k);
      c := blocks;
      KeptOne(b, c, all, t);
      InUseMore(r, n);
      if Splits(blocks[t], size) {
        var m := PutRest(t, Moved(from, size), k, all + [n]);
        SplitRings(r, n, m, k);
        KeptParts(b, c, blocks, all, n, from, from + size);
        TakenBy(b, r, blocks, rings, k, size, n, m);
      } else {
        ToUnUsedControlBlock(t, {}, FREE, k);
        SameIsKept(c, blocks);
        KeptOn(b, c, blocks, all);
        GovernsOn(c, blocks, n, from, from + size);
        TakenBy(b, r, blocks, rings, k, size, n, NULL);
      }
    }

    /** Formats the file: one free block that governs everything. Only clean where nothing was allocated. */
    method Init()
      requires freeHead != NULL ==> freeHead in blocks && blocks[freeHead].prev in blocks
      modifies this
      ensures freeHead == FIRST_BLOCK && Governs(blocks, FIRST_BLOCK, 0, 0) && tail == FIRST_BLOCK && unusedHead == NULL
      ensures allocatedHead == old(allocatedHead) && blocks == Entered(old(blocks)[FIRST_BLOCK := Block(FIRST_BLOCK, FIRST_BLOCK, 0, 0)], old(freeHead), FIRST_BLOCK)
      ensures old(allocatedHead) == NULL && old(blocks).Keys <= {FIRST_BLOCK} && old(freeHead) in {NULL, FIRST_BLOCK} ==>
        Valid({}) && Steady(blocks, rings, 0)
    {
      var first := Block(FIRST_BLOCK, FIRST_BLOCK, 0, 0);
      blocks := blocks[FIRST_BLOCK := first];
      FreeBlockHead(FIRST_BLOCK);
      tail := FIRST_BLOCK;
      UnUsedControlBlockHead(NULL);
      rings := [[FIRST_BLOCK], [], []];
      FormattedIsLinked(blocks);
    }

    // -------------------------------------------------------------- the file of a safe session

    /** A file that was never written. */
    constructor ()
      ensures blocks == map[] && freeHead == allocatedHead == unusedHead == tail == NULL
    {
      blocks, freeHead, allocatedHead, unusedHead, tail, rings := map[], NULL, NULL, NULL, NULL, [];
    }

    /** Formatted, formatted again, and 100 and 51 bytes set apart: the first node will lie at 151. */
    method OpenSafeFile()
      requires blocks == map[] && freeHead == allocatedHead == unusedHead == NULL
      modifies this
      ensures Valid({}) && Steady(blocks, rings, 151)
    {
      Init();
      Init();
      ghost var b, r := blocks, rings;
      TakenIsSteady(b, r, b, r, 0, 100);
      var meta := Allocate(100, 0);
      TakenIsSteady(b, r, blocks, rings, 0, 100);
      b, r := blocks, rings;
      TakenIsSteady(b, r, b, r, 100, 51);
      var gap := Allocate(51, 0);
      TakenIsSteady(b, r, blocks, rings, 100, 51);
    }

    /**
      Opening a session on a file that was used before formats it once, over its blocks: the former free
      block stays behind the first one, the ring of allocations is broken if the first block had come to
      be one of them, and the next new block takes the place of one in use.
    */
    method Reopen(ghost total: nat)
      requires Valid({}) && Steady(blocks, rings, total) && total > 0
      modifies this
      ensures freeHead == FIRST_BLOCK && tail == FIRST_BLOCK && unusedHead == NULL && allocatedHead == old(allocatedHead)
      ensures FormattedTo(old(blocks), old(freeHead), blocks)
      ensures |old(rings)| == 3 && (Ring(blocks, old(rings)[ALLOCATED]) <==> FIRST_BLOCK !in old(rings)[ALLOCATED])
      ensures tail + BLOCK_SIZE in blocks
    {
      ghost var b, f, cells := blocks, freeHead, rings[ALLOCATED];
      UsedHasTwo(b, tail, rings, total);
      NeverNull(b, rings, FREE);
      FormattedFree(b, f);
      hide Valid, Ring, Steady, FormattedTo;
      Init();
      FormattedAllocated(b, f, blocks, cells);
    }

    /** Clearing a file in use once more makes the next allocation begin at 0, the null address. */
    method ClearAgain(size: nat) returns (at: nat)
      requires Valid({}) && freeHead != NULL
      modifies this
      ensures at == NULL
    {
      FreeHeadIs();
      hide Valid;
      Init();
      OnlyFirst(blocks, size);
      at := AddressFor(size, [FIRST_BLOCK], 0);
    }

    lemma FreeHeadIs()
      requires Valid({}) && freeHead != NULL
      ensures freeHead in blocks && blocks[freeHead].prev in blocks
    {
      FreeRing();
      AloneOrNot(blocks, rings[FREE], 0);
    }

    /** The block of a ring that begins at the address; NULL when there is none. */
    method FindMapping(head: Addr, mapping: nat, ghost cells: seq<Addr>) returns (t: Addr, ghost k: nat)
      requires Ring(blocks, cells) && head == Head(cells)
      ensures t == NULL ==> forall i | 0 <= i < |cells| :: cells[i] in blocks && blocks[cells[i]].mapping != mapping
      ensures t != NULL ==> k < |cells| && t == cells[k] && t in blocks && blocks[t].mapping == mapping
    {
      t, k := head, 0;
      if head == NULL { return; }
      while true
        invariant k < |cells| && t == cells[k] && t in blocks && t != NULL
        invariant forall i | 0 <= i < k :: cells[i] in blocks && blocks[cells[i]].mapping != mapping
        decreases |cells| - k
      {
        if blocks[t].mapping == mapping { return; }
        assert Joined(blocks, cells[k], PrevCell(cells, k), NextCell(cells, k));
        t := blocks[t].next;
        if t == head { return NULL, k; }
        k := k + 1;
      }
    }

    // -------------------------------------------------------------- merging and freeing

    /** The first free block takes over whatever free block begins where it ends, again and again. */
    method MergeControlBlock(t: Addr)
      requires Valid({}) && |rings| == 3 && rings[FREE] != [] && rings[FREE][0] == t && Proper(blocks, rings[FREE])
      modifies this
      ensures Valid({}) && SameFree(old(blocks), old(rings), blocks, rings)
      ensures t == rings[FREE][0] && t in blocks && NoneBehind(blocks, rings[FREE])
      decreases |rings[FREE]|
    {
      ghost var b, r := blocks, rings;
      InUseAll(rings);
      UsedAreBlocks(blocks, tail, rings, {}, freeHead, allocatedHead, unusedHead, UsedCells(rings));
      KeptSome(b, b, UsedCells(rings), rings[ALLOCATED]);
      SameFreeNothing(b, r);
      FreeRing();
      assert 0 <= FREE < 3;
      if blocks[t].end == 0 { return; }
      var m: Addr;
      ghost var k: nat;
      m, k := FindMapping(freeHead, blocks[t].end, rings[FREE]);
      if m == NULL { return; }
      assert 0 < k < |r[FREE]| && m == r[FREE][k] by { assert b[t].mapping < b[t].end; }
      hide *;
      Absorb(t, m, k);
      ghost var c, rs := blocks, rings;
      FewerFree(r, k);
      MergeControlBlock(t);
      SameFreeTwice(b, r, c, rs, blocks, rings);
    }

    lemma FreeRing()
      requires Valid({}) && |rings| == 3
      ensures Ring(blocks, rings[FREE]) && freeHead == Head(rings[FREE])
      ensures Ring(blocks, rings[ALLOCATED]) && allocatedHead == Head(rings[ALLOCATED])
    {
    }

    method Absorb(t: Addr, m: Addr, ghost k: nat)
      requires Valid({}) && |rings| == 3 && 0 < k < |rings[FREE]| && rings[FREE][0] == t && rings[FREE][k] == m
      requires Proper(blocks, rings[FREE]) && t in blocks && m in blocks && blocks[t].end == blocks[m].mapping != 0
      modifies this
      ensures Valid({}) && |old(rings)| == 3 && k < |old(rings)[FREE]| && rings == Unused(old(rings), FREE, k)
      ensures SameFree(old(blocks), old(rings), blocks, rings)
    {
      ghost var b, r, end := blocks, rings, blocks[m].end;
      ghost var others := RemoveAt(rings[FREE], k)[1..] + rings[ALLOCATED];
      OthersApart(k, others);
      assert 0 <= FREE < 3;
      hide *;
      SetEnd(t, blocks[m].end, {});
      KeptSet(b, b, others, t, b[t].(end := end));
      ghost var c := blocks;
      ToUnUsedControlBlock(m, {}, FREE, k);
      SameIsKept(c, blocks);
      KeptOn(b, c, blocks, others);
      GovernsIs(c, t, b[t].mapping, end);
      GovernsOn(c, blocks, t, b[t].mapping, end);
      AbsorbsBy(b, blocks, r, k, others);
      AbsorbSameFree(b, r, blocks, k);
    }

    lemma OthersApart(k: nat, others: seq<Addr>)
      requires Valid({}) && |rings| == 3 && 0 < k < |rings[FREE]| && others == RemoveAt(rings[FREE], k)[1..] + rings[ALLOCATED]
      ensures KeptFor(blocks, blocks, others) && rings[FREE][0] !in others
    {
      TailApart(rings[FREE], k);
      assert Disjoint(rings[FREE], rings[ALLOCATED]) && rings[FREE][0] in rings[FREE];
      UsedAreBlocks(blocks, tail, rings, {}, freeHead, allocatedHead, unusedHead, others);
    }

    method MakeFree(a: Addr, ghost j: nat) returns (f: Addr)
      requires Valid({}) && |rings| == 3 && |rings[UNUSED]| <= 2 && j < |rings[ALLOCATED]| && rings[ALLOCATED][j] == a && a in blocks
      requires j > 0 || |rings[ALLOCATED]| <= 2
      modifies this
      ensures Valid({}) && Turned(old(blocks), old(rings), blocks, rings, f, j)
    {
      ghost var b, r, all := blocks, rings, UsedCells(rings);
      InUseAll(rings);
      UsedAreBlocks(blocks, tail, rings, {}, freeHead, allocatedHead, unusedHead, all);
      assert 0 <= ALLOCATED < 3 && r[ALLOCATED][j] in all;
      hide *;
      f := TakeFor(blocks[a].mapping, blocks[a].end, all);
      ghost var c := blocks;
      EnterFree(f, {f});
      assert {f} - {f} == {};
      SameIsKept(c, blocks);
      KeptOn(b, c, blocks, all);
      GovernsOn(c, blocks, f, b[a].mapping, b[a].end);
      TurnedRings(r, f, j);
      c := blocks;
      ToUnUsedControlBlock(a, {}, ALLOCATED, j);
      SameIsKept(c, blocks);
      KeptOn(b, c, blocks, all);
      GovernsOn(c, blocks, f, b[a].mapping, b[a].end);
      TurnedBy(b, r, blocks, rings, f, j);
    }

    /** Frees what begins at the address; false, where the source throws, when nothing allocated does. */
    method Deallocate(target: nat, ghost j: nat) returns (done: bool)
      requires Valid({}) && |rings| == 3 && |rings[UNUSED]| <= 2 && Proper(blocks, rings[FREE]) && Proper(blocks, rings[ALLOCATED])
      requires forall i | 0 <= i < |rings[ALLOCATED]| :: blocks[rings[ALLOCATED][i]].mapping == target ==> i == j
      requires j == 0 ==> |rings[ALLOCATED]| <= 2
      requires forall i | 0 <= i < |rings[ALLOCATED]| :: blocks[rings[ALLOCATED][i]].end != 0
      modifies this
      ensures Valid({}) && |old(rings)| == 3
      ensures done <==> exists i :: 0 <= i < |old(rings)[ALLOCATED]| && old(rings)[ALLOCATED][i] in old(blocks)
                                    && old(blocks)[old(rings)[ALLOCATED][i]].mapping == target
      ensures !done ==> blocks == old(blocks) && rings == old(rings)
      ensures done ==> j < |old(rings)[ALLOCATED]| && old(rings)[ALLOCATED][j] in old(blocks)
      ensures done ==> Freed(old(blocks), old(rings), blocks, rings, j)
    {
      ghost var b, r := blocks, rings;
      FreeRing();
      var a: Addr;
      ghost var i: nat;
      a, i := FindMapping(allocatedHead, target, rings[ALLOCATED]);
      if a == NULL { return false; }
      assert i == j;
      done := true;
      hide *;
      var f := MakeFree(a, j);
      ghost var c, rs := blocks, rings;
      TurnedCovers(b, r, c, rs, f, j);
      MergeControlBlock(f);
      FreedBy(b, r, c, rs, blocks, rings, f, j);
    }
  }
}