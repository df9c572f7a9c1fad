/** The control blocks of a file: rings of doubly linked blocks, and what the link writes do to them. */
module ControlBlocks {
  import opened Seqs
  import opened BTreeSpec
  import opened OverlayPtr

  /** A block governs the bytes from mapping up to end; end 0 stands for no end. */
  datatype Block = Block(prev: Addr, next: Addr, mapping: nat, end: nat)

  type Blocks = map<Addr, Block>

  function NextCell(cells: seq<Addr>, i: nat): Addr
    requires i < |cells|
  {
    if i + 1 == |cells| then cells[0] else cells[i + 1]
  }

  function PrevCell(cells: seq<Addr>, i: nat): Addr
    requires i < |cells|
  {
    if i == 0 then cells[|cells| - 1] else cells[i - 1]
  }

  ghost predicate NoRepeats(cells: seq<Addr>) { forall i, j | 0 <= i < j < |cells| :: cells[i] != cells[j] }

  ghost predicate Joined(b: Blocks, x: Addr, prev: Addr, next: Addr) { x in b && b[x].prev == prev && b[x].next == next }

  /** The cells are one proper circular list, in this order. */
  ghost predicate Ring(b: Blocks, cells: seq<Addr>) {
    && NoRepeats(cells) && NULL !in cells
    && forall i | 0 <= i < |cells| :: Joined(b, cells[i], PrevCell(cells, i), NextCell(cells, i))
  }

  /** The cells follow one another. */
  ghost predicate Chained(b: Blocks, cells: seq<Addr>) {
    && cells != [] && (forall i | 0 <= i < |cells| :: cells[i] in b)
    && forall i | 0 <= i < |cells| - 1 :: b[cells[i]].next == cells[i + 1]
  }

  lemma RingIsChained(b: Blocks, cells: seq<Addr>)
    requires Ring(b, cells) && cells != []
    ensures Chained(b, cells)
  {
    forall i | 0 <= i < |cells| ensures cells[i] in b && (i < |cells| - 1 ==> b[cells[i]].next == cells[i + 1]) {
      assert Joined(b, cells[i], PrevCell(cells, i), NextCell(cells, i));
    }
  }

  function Head(cells: seq<Addr>): Addr { if cells == [] then NULL else cells[0] }

  /** The same blocks, governing the same bytes. */
  ghost predicate SameRanges(b: Blocks, c: Blocks) {
    b.Keys == c.Keys && forall a | a in b :: c[a].mapping == b[a].mapping && c[a].end == b[a].end
  }

  /** No link changed outside of the cells. */
  ghost predicate OnlyLinks(b: Blocks, c: Blocks, cells: seq<Addr>) {
    SameRanges(b, c) && forall a | a in b && a !in cells :: c[a] == b[a]
  }

  lemma RingFrame(b: Blocks, c: Blocks, cells: seq<Addr>, touched: seq<Addr>)
    requires Ring(b, cells) && OnlyLinks(b, c, touched) && forall i | 0 <= i < |cells| :: cells[i] !in touched
    ensures Ring(c, cells)
  {
  }

  // ---------------------------------------------------------------- entering at the head

  /** t put before the head, or alone into an empty ring. */
  function Entered(b: Blocks, head: Addr, t: Addr): Blocks
    requires t in b && (head != NULL ==> head in b && b[head].prev in b)
  {
    if head == NULL then b[t := b[t].(prev := t, next := t)]
    else
      var b1 := b[t := b[t].(next := head, prev := b[head].prev)];
      var last := b1[head].prev;
      var b2 := b1[last := b1[last].(next := t)];
      b2[head := b2[head].(prev := t)]
  }

  /** What entering does to the links of any block. */
  lemma EnterLinks(b: Blocks, head: Addr, t: Addr)
    requires t in b && head in b && head != NULL && b[head].prev in b && head != t && b[head].prev != t
    ensures var c, last := Entered(b, head, t), b[head].prev;
            && SameRanges(b, c)
            && forall x | x in b ::
                 && c[x].next == (if x == last then t else if x == t then head else b[x].next)
                 && c[x].prev == (if x == head then t else if x == t then last else b[x].prev)
  {
  }

  lemma EnterCell(b: Blocks, cells: seq<Addr>, t: Addr, i: nat)
    requires Ring(b, cells) && t in b && t !in cells && cells != [] && i <= |cells|
    ensures cells[0] in b && b[cells[0]].prev in b
    ensures var r := [t] + cells;
            Joined(Entered(b, cells[0], t), r[i], PrevCell(r, i), NextCell(r, i))
  {
    var last := cells[|cells| - 1];
    AtEnds(b, cells);
    EnterLinks(b, cells[0], t);
    GrownCell(cells, t, i);
    if i > 0 { assert Joined(b, cells[i - 1], PrevCell(cells, i - 1), NextCell(cells, i - 1)); }
    hide Entered, NextCell, PrevCell, NoRepeats;
  }

  lemma AtEnds(b: Blocks, cells: seq<Addr>)
    requires Ring(b, cells) && cells != []
    ensures cells[0] in b && cells[0] != NULL && b[cells[0]].prev == cells[|cells| - 1] && cells[|cells| - 1] in b
    ensures b[cells[|cells| - 1]].next == cells[0]
  {
    assert Joined(b, cells[0], cells[|cells| - 1], NextCell(cells, 0));
    assert Joined(b, cells[|cells| - 1], PrevCell(cells, |cells| - 1), cells[0]);
  }

  /** The neighbours in a ring with t put in front. */
  lemma GrownCell(cells: seq<Addr>, t: Addr, i: nat)
    requires cells != [] && NoRepeats(cells) && t !in cells && i <= |cells|
    ensures var r, last := [t] + cells, cells[|cells| - 1];
            if i == 0 then r[i] == t && PrevCell(r, i) == last && NextCell(r, i) == cells[0]
            else
              && r[i] == cells[i - 1]
              && NextCell(r, i) == (if cells[i - 1] == last then t else NextCell(cells, i - 1))
              && PrevCell(r, i) == (if cells[i - 1] == cells[0] then t else PrevCell(cells, i - 1))
  {
  }

  lemma EnterRing(b: Blocks, cells: seq<Addr>, t: Addr)
    requires Ring(b, cells) && t in b && t !in cells && t != NULL
    ensures cells != [] ==> cells[0] in b && b[cells[0]].prev in b
    ensures Ring(Entered(b, Head(cells), t), [t] + cells)
    ensures OnlyLinks(b, Entered(b, Head(cells), t), [t] + cells)
  {
    var r, n := [t] + cells, |cells|;
    if cells != [] {
      EnterCell(b, cells, t, 0);
      var c := Entered(b, cells[0], t);
      forall i | 0 <= i <= n ensures Joined(c, r[i], PrevCell(r, i), NextCell(r, i)) { EnterCell(b, cells, t, i); }
      assert Joined(b, cells[0], cells[n - 1], NextCell(cells, 0));
      EnterLinks(b, cells[0], t);
    }
  }

  // ---------------------------------------------------------------- leaving

  /** t's neighbours joined. */
  function Unlinked(b: Blocks, t: Addr): Blocks
    requires t in b && b[t].next in b && b[t].prev in b
  {
    var b1 := b[b[t].next := b[b[t].next].(prev := b[t].prev)];
    b1[b1[t].prev := b1[b1[t].prev].(next := b1[t].next)]
  }

  /** What leaving does to the links of any block. */
  lemma LeaveLinks(b: Blocks, t: Addr)
    requires t in b && b[t].next in b && b[t].prev in b && b[t].next != t && b[t].prev != t
    ensures var c := Unlinked(b, t);
            && SameRanges(b, c)
            && forall x | x in b ::
                 && c[x].next == (if x == b[t].prev then b[t].next else b[x].next)
                 && c[x].prev == (if x == b[t].next then b[t].prev else b[x].prev)
  {
  }

  lemma Neighbours(b: Blocks, cells: seq<Addr>, i: nat)
    requires Ring(b, cells) && i < |cells| && |cells| > 1
    ensures cells[i] in b && b[cells[i]].next == NextCell(cells, i) && NextCell(cells, i) in b
    ensures b[cells[i]].prev == PrevCell(cells, i) && PrevCell(cells, i) in b
    ensures NextCell(cells, i) != cells[i] && PrevCell(cells, i) != cells[i]
  {
    var n := |cells|;
    assert Joined(b, cells[i], PrevCell(cells, i), NextCell(cells, i));
    var p, q := if i == 0 then n - 1 else i - 1, if i + 1 == n then 0 else i + 1;
    assert Joined(b, cells[p], PrevCell(cells, p), NextCell(cells, p)) && Joined(b, cells[q], PrevCell(cells, q), NextCell(cells, q));
  }

  lemma LeaveCell(b: Blocks, cells: seq<Addr>, i: nat, j: nat)
    requires Ring(b, cells) && 0 < i < |cells| && j < |cells| - 1
    ensures b[cells[i]].next in b && b[cells[i]].prev in b
    ensures var r := RemoveAt(cells, i);
            Joined(Unlinked(b, cells[i]), r[j], PrevCell(r, j), NextCell(r, j))
  {
    Neighbours(b, cells, i);
    LeaveLinks(b, cells[i]);
    LeftCell(cells, i, j);
    var k := if j < i then j else j + 1;
    assert Joined(b, cells[k], PrevCell(cells, k), NextCell(cells, k));
    hide Unlinked, NextCell, PrevCell, NoRepeats, RemoveAt;
  }

  /** Any but the first cell leaves a ring properly. */
  lemma LeaveRing(b: Blocks, cells: seq<Addr>, i: nat)
    requires Ring(b, cells) && 0 < i < |cells|
    ensures b[cells[i]].next in b && b[cells[i]].prev in b
    ensures Ring(Unlinked(b, cells[i]), RemoveAt(cells, i)) && OnlyLinks(b, Unlinked(b, cells[i]), cells)
  {
    var c, r := Unlinked(b, cells[i]), RemoveAt(cells, i);
    Neighbours(b, cells, i);
    LeaveLinks(b, cells[i]);
    LeftCells(cells, i);
    hide Unlinked, NextCell, PrevCell, NoRepeats, RemoveAt, Joined;
    forall j | 0 <= j < |r| ensures Joined(c, r[j], PrevCell(r, j), NextCell(r, j)) { LeaveCell(b, cells, i, j); }
  }

  lemma LeftCells(cells: seq<Addr>, i: nat)
    requires i < |cells| && NoRepeats(cells)
    ensures NoRepeats(RemoveAt(cells, i)) && forall x :: x in RemoveAt(cells, i) <==> x in cells && x != cells[i]
    ensures |cells| > 1 ==> PrevCell(cells, i) in cells && NextCell(cells, i) in cells
  {
    var r := RemoveAt(cells, i);
    forall x | x in cells && x != cells[i] ensures x in r {
      var k :| 0 <= k < |cells| && cells[k] == x;
      assert r[if k < i then k else k - 1] == x;
    }
  }

  /** The neighbours in a ring without its cell i. */
  lemma LeftCell(cells: seq<Addr>, i: nat, j: nat)
    requires 0 < i < |cells| && j < |cells| - 1 && NoRepeats(cells)
    ensures var r, k := RemoveAt(cells, i), if j < i then j else j + 1;
            && r[j] == cells[k]
            && NextCell(r, j) == (if cells[k] == PrevCell(cells, i) then NextCell(cells, i) else NextCell(cells, k))
            && PrevCell(r, j) == (if cells[k] == NextCell(cells, i) then PrevCell(cells, i) else PrevCell(cells, k))
  {
    var r, k, n := RemoveAt(cells, i), if j < i then j else j + 1, |cells|;
    assert forall m | 0 <= m < n - 1 :: r[m] == if m < i then cells[m] else cells[m + 1];
    var q := if i + 1 == n then 0 else i + 1;
    assert NextCell(cells, i) == cells[q];
    assert cells[k] == cells[q] ==> k == q;
    assert cells[k] == cells[i - 1] ==> k == i - 1;
  }

  // ---------------------------------------------------------------- the first cell

  /** How the source takes the head of a ring out: the next block enters before it, then it is unlinked. */
  function HeadLeft(b: Blocks, t: Addr): Blocks
    requires t in b && b[t].next in b && b[t].prev in b && t != NULL
  {
    var c := Entered(b, t, b[t].next);
    if c[t].next in c && c[t].prev in c then Unlinked(c, t) else c
  }

  /** How the source uses the head of the unused ring: it is unlinked, then the next block enters before it. */
  function HeadUsed(b: Blocks, t: Addr): Blocks
    requires t in b && b[t].next in b && b[t].prev in b && t != NULL
  {
    var c := Unlinked(b, t);
    if c[t].prev in c && c[t].next in c then Entered(c, t, c[t].next) else c
  }

  lemma HeadLeftLinks(b: Blocks, t: Addr)
    requires t in b && b[t].next in b && b[t].prev in b && t != NULL && b[t].next != t && b[t].prev != t
    ensures var c, h, z := HeadLeft(b, t), b[t].next, b[t].prev;
            && SameRanges(b, c) && c[h].next == h && c[h].prev == h
            && forall x | x in b && x != t && x != h && x != z :: c[x] == b[x]
  {
  }

  lemma HeadUsedLinks(b: Blocks, t: Addr)
    requires t in b && b[t].next in b && b[t].prev in b && t != NULL && b[t].next != t && b[t].prev != t
    ensures var c, h, z := HeadUsed(b, t), b[t].next, b[t].prev;
            && SameRanges(b, c) && c[h].prev == z && c[h].next == (if h == z then h else t)
            && forall x | x in b && x != t && x != h && x != z :: c[x] == b[x]
  {
  }

  /** The head is taken out properly from rings of two only; of a longer ring just the next block stays. */
  lemma HeadLeaves(b: Blocks, cells: seq<Addr>)
    requires Ring(b, cells) && |cells| >= 2
    ensures cells[0] in b && b[cells[0]].next == cells[1] && cells[1] in b && b[cells[0]].prev in b
    ensures Ring(HeadLeft(b, cells[0]), cells[1..]) <==> |cells| == 2
    ensures Ring(HeadLeft(b, cells[0]), [cells[1]]) && OnlyLinks(b, HeadLeft(b, cells[0]), cells)
  {
    Neighbours(b, cells, 0);
    HeadLeftLinks(b, cells[0]);
    var c, r := HeadLeft(b, cells[0]), cells[1..];
    hide HeadLeft;
    assert Joined(c, cells[1], cells[1], cells[1]);
    if |cells| == 2 {
      assert r == [cells[1]];
    } else {
      assert NextCell(r, 0) == cells[2] != cells[1];
      assert !Joined(c, r[0], PrevCell(r, 0), NextCell(r, 0));
    }
  }

  /** The head is used up properly from rings of two only; from a longer ring it stays reachable. */
  lemma HeadIsUsed(b: Blocks, cells: seq<Addr>)
    requires Ring(b, cells) && |cells| >= 2
    ensures cells[0] in b && b[cells[0]].next == cells[1] && cells[1] in b && b[cells[0]].prev in b
    ensures Ring(HeadUsed(b, cells[0]), cells[1..]) <==> |cells| == 2
    ensures |cells| > 2 ==> HeadUsed(b, cells[0])[cells[1]].next == cells[0]
    ensures OnlyLinks(b, HeadUsed(b, cells[0]), cells)
  {
    Neighbours(b, cells, 0);
    HeadUsedLinks(b, cells[0]);
    var c, r := HeadUsed(b, cells[0]), cells[1..];
    hide HeadUsed;
    if |cells| == 2 {
      assert r == [cells[1]] && Joined(c, cells[1], cells[1], cells[1]);
    } else {
      assert NextCell(r, 0) == cells[2] != cells[0];
      assert !Joined(c, r[0], PrevCell(r, 0), NextCell(r, 0));
    }
  }
}
