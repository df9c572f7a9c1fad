/**
  The packed form of a node: 103 bytes of overlay memory, written field by field.  Here it is shown
  to hold the record (module BTreeSpec) that the rest of the index works with.
*/
module PackedNode {
  import opened Bytes
  import opened Seqs
  import opened OverlayPtr
  import opened BTreeSpec
  import opened KeySort
  import opened BTreeHeap

  const KEY_SIZE: nat := 20
  const PTR_SIZE: nat := 5
  const KEY_COUNT_AT: nat := 5
  const KEYS_AT: nat := 6
  const KID_COUNT_AT: nat := 66
  const KIDS_AT: nat := 67
  const DATA_COUNT_AT: nat := 87
  const DATA_AT: nat := 88

  type RawKey = s: seq<Byte> | |s| == 20
    witness [0, 0, 0, 0, 0, 0, 0, 0, 0, 0, 0, 0, 0, 0, 0, 0, 0, 0, 0, 0]

  /** The fields, with every slot, used or not. */
  datatype Slots = Slots(parent: Optr, keyCount: Byte, keys: seq<RawKey>, kidCount: Byte, kids: seq<Optr>, dataCount: Byte, data: seq<Optr>)

  predicate Full(s: Slots) { |s.keys| == 3 && |s.kids| == 4 && |s.data| == 3 }

  function KeyAt(b: seq<Byte>, i: nat): RawKey
    requires |b| == NODE_SIZE && i < 3
  {
    b[KEYS_AT + KEY_SIZE * i..KEYS_AT + KEY_SIZE * i + KEY_SIZE]
  }

  function KidAt(b: seq<Byte>, i: nat): Optr
    requires |b| == NODE_SIZE && i < 4
  {
    b[KIDS_AT + PTR_SIZE * i..KIDS_AT + PTR_SIZE * i + PTR_SIZE]
  }

  function DataAt(b: seq<Byte>, i: nat): Optr
    requires |b| == NODE_SIZE && i < 3
  {
    b[DATA_AT + PTR_SIZE * i..DATA_AT + PTR_SIZE * i + PTR_SIZE]
  }

  function Unpack(b: seq<Byte>): (s: Slots)
    requires |b| == NODE_SIZE
    ensures Full(s)
  {
    Slots(b[..PTR_SIZE], b[KEY_COUNT_AT], [KeyAt(b, 0), KeyAt(b, 1), KeyAt(b, 2)],
          b[KID_COUNT_AT], [KidAt(b, 0), KidAt(b, 1), KidAt(b, 2), KidAt(b, 3)],
          b[DATA_COUNT_AT], [DataAt(b, 0), DataAt(b, 1), DataAt(b, 2)])
  }

  function Pack(s: Slots): (b: seq<Byte>)
    requires Full(s)
    ensures |b| == NODE_SIZE
  {
    s.parent + ([s.keyCount] + s.keys[0] + s.keys[1] + s.keys[2])
    + ([s.kidCount] + s.kids[0] + s.kids[1] + s.kids[2] + s.kids[3])
    + ([s.dataCount] + s.data[0] + s.data[1] + s.data[2])
  }

  /** Every byte belongs to one field, and every field to its own bytes. */
  lemma PackUnpack(b: seq<Byte>)
    requires |b| == NODE_SIZE
    ensures Pack(Unpack(b)) == b
  {
  }

  lemma UnpackPack(s: Slots)
    requires Full(s)
    ensures Unpack(Pack(s)) == s
  {
    var b := Pack(s);
    var x, y, z := [s.keyCount] + s.keys[0] + s.keys[1] + s.keys[2],
                   [s.kidCount] + s.kids[0] + s.kids[1] + s.kids[2] + s.kids[3],
                   [s.dataCount] + s.data[0] + s.data[1] + s.data[2];
    assert b[..PTR_SIZE] == s.parent && b[5..66] == x && b[66..87] == y && b[87..] == z;
    assert b[KEY_COUNT_AT] == x[0] && b[KID_COUNT_AT] == y[0] && b[DATA_COUNT_AT] == z[0];
    Slice(b, 5, 66, x);
    Slice(b, 66, 87, y);
    Slice(b, 87, 103, z);
    assert x[1..21] == s.keys[0] && x[21..41] == s.keys[1] && x[41..61] == s.keys[2];
    assert y[1..6] == s.kids[0] && y[6..11] == s.kids[1] && y[11..16] == s.kids[2] && y[16..21] == s.kids[3];
    assert z[1..6] == s.data[0] && z[6..11] == s.data[1] && z[11..16] == s.data[2];
    assert s.keys == [s.keys[0], s.keys[1], s.keys[2]] && s.data == [s.data[0], s.data[1], s.data[2]];
    assert s.kids == [s.kids[0], s.kids[1], s.kids[2], s.kids[3]];
  }

  lemma Slice(b: seq<Byte>, lo: nat, hi: nat, part: seq<Byte>)
    requires lo <= hi <= |b| && b[lo..hi] == part
    ensures forall i, j | 0 <= i <= j <= |part| :: b[lo + i..lo + j] == part[i..j]
  {
    forall i, j | 0 <= i <= j <= |part| ensures b[lo + i..lo + j] == part[i..j] {
      Within(b, lo, hi - lo, i, j);
    }
  }

  // ---------------------------------------------------------------- one field written

  lemma PatchedOutside(b: seq<Byte>, at: nat, src: seq<Byte>, lo: nat, hi: nat)
    requires at + |src| <= |b| && lo <= hi <= |b| && (hi <= at || at + |src| <= lo)
    ensures Patched(b, at, src)[lo..hi] == b[lo..hi]
  {
  }

  lemma PatchedInside(b: seq<Byte>, at: nat, src: seq<Byte>)
    requires at + |src| <= |b|
    ensures Patched(b, at, src)[at..at + |src|] == src
  {
  }

  /** The bytes from lo to hi are not written. */
  predicate Beside(at: nat, n: nat, lo: nat, hi: nat) { hi <= at || at + n <= lo }

  /** A write leaves every field alone that it does not touch. */
  lemma Untouched(b: seq<Byte>, at: nat, src: seq<Byte>)
    requires |b| == NODE_SIZE && at + |src| <= NODE_SIZE
    ensures var c := Patched(b, at, src);
            && (Beside(at, |src|, 0, 5) ==> c[..PTR_SIZE] == b[..PTR_SIZE])
            && (Beside(at, |src|, 5, 6) ==> c[KEY_COUNT_AT] == b[KEY_COUNT_AT])
            && (Beside(at, |src|, 66, 67) ==> c[KID_COUNT_AT] == b[KID_COUNT_AT])
            && (Beside(at, |src|, 87, 88) ==> c[DATA_COUNT_AT] == b[DATA_COUNT_AT])
            && (forall i | 0 <= i < 3 && Beside(at, |src|, 6 + 20 * i, 26 + 20 * i) :: KeyAt(c, i) == KeyAt(b, i))
            && (forall i | 0 <= i < 4 && Beside(at, |src|, 67 + 5 * i, 72 + 5 * i) :: KidAt(c, i) == KidAt(b, i))
            && (forall i | 0 <= i < 3 && Beside(at, |src|, 88 + 5 * i, 93 + 5 * i) :: DataAt(c, i) == DataAt(b, i))
  {
    if Beside(at, |src|, 0, 5) { PatchedOutside(b, at, src, 0, 5); }
    forall i | 0 <= i < 3 && Beside(at, |src|, 6 + 20 * i, 26 + 20 * i)
      ensures KeyAt(Patched(b, at, src), i) == KeyAt(b, i)
    {
      PatchedOutside(b, at, src, 6 + 20 * i, 26 + 20 * i);
    }
    forall i | 0 <= i < 4 && Beside(at, |src|, 67 + 5 * i, 72 + 5 * i)
      ensures KidAt(Patched(b, at, src), i) == KidAt(b, i)
    {
      PatchedOutside(b, at, src, 67 + 5 * i, 72 + 5 * i);
    }
    forall i | 0 <= i < 3 && Beside(at, |src|, 88 + 5 * i, 93 + 5 * i)
      ensures DataAt(Patched(b, at, src), i) == DataAt(b, i)
    {
      PatchedOutside(b, at, src, 88 + 5 * i, 93 + 5 * i);
    }
  }

  lemma KeyPatch(b: seq<Byte>, i: nat, k: RawKey)
    requires |b| == NODE_SIZE && i < 3
    ensures Unpack(Patched(b, KEYS_AT + KEY_SIZE * i, k)) == Unpack(b).(keys := Unpack(b).keys[i := k])
  {
    Untouched(b, KEYS_AT + KEY_SIZE * i, k);
    PatchedInside(b, KEYS_AT + KEY_SIZE * i, k);
  }

  lemma KidPatch(b: seq<Byte>, i: nat, p: Optr)
    requires |b| == NODE_SIZE && i < 4
    ensures Unpack(Patched(b, KIDS_AT + PTR_SIZE * i, p)) == Unpack(b).(kids := Unpack(b).kids[i := p])
  {
    Untouched(b, KIDS_AT + PTR_SIZE * i, p);
    PatchedInside(b, KIDS_AT + PTR_SIZE * i, p);
  }

  lemma DataPatch(b: seq<Byte>, i: nat, p: Optr)
    requires |b| == NODE_SIZE && i < 3
    ensures Unpack(Patched(b, DATA_AT + PTR_SIZE * i, p)) == Unpack(b).(data := Unpack(b).data[i := p])
  {
    Untouched(b, DATA_AT + PTR_SIZE * i, p);
    PatchedInside(b, DATA_AT + PTR_SIZE * i, p);
  }

  lemma ParentPatch(b: seq<Byte>, p: Optr)
    requires |b| == NODE_SIZE
    ensures Unpack(Patched(b, 0, p)) == Unpack(b).(parent := p)
  {
    Untouched(b, 0, p);
    PatchedInside(b, 0, p);
  }

  lemma CountPatch(b: seq<Byte>, n: Byte)
    requires |b| == NODE_SIZE
    ensures Unpack(Patched(b, KEY_COUNT_AT, [n])) == Unpack(b).(keyCount := n)
    ensures Unpack(Patched(b, KID_COUNT_AT, [n])) == Unpack(b).(kidCount := n)
    ensures Unpack(Patched(b, DATA_COUNT_AT, [n])) == Unpack(b).(dataCount := n)
  {
    Untouched(b, KEY_COUNT_AT, [n]);
    Untouched(b, KID_COUNT_AT, [n]);
    Untouched(b, DATA_COUNT_AT, [n]);
  }

  /** The guard lets one slot too many through: a fourth key lands on the child count and the children. */
  lemma FourthKey(b: seq<Byte>, k: RawKey)
    requires |b| == NODE_SIZE
    ensures var s, t := Unpack(b), Unpack(Patched(b, KEYS_AT + KEY_SIZE * 3, k));
            && t == s.(kidCount := k[0], kids := [KidAt(Patched(b, 66, k), 0), KidAt(Patched(b, 66, k), 1), KidAt(Patched(b, 66, k), 2), k[16..20] + s.kids[3][4..]])
            && t.kids[0] == k[1..6] && t.kids[1] == k[6..11] && t.kids[2] == k[11..16]
  {
    Untouched(b, 66, k);
    var c := Patched(b, 66, k);
    assert c[66] == k[0] && KidAt(c, 0) == k[1..6] && KidAt(c, 1) == k[6..11] && KidAt(c, 2) == k[11..16];
    assert KidAt(c, 3) == k[16..20] + KidAt(b, 3)[4..];
  }

  /** A fifth child lands on the data count and the first data pointer. */
  lemma FifthKid(b: seq<Byte>, p: Optr)
    requires |b| == NODE_SIZE
    ensures var s, t := Unpack(b), Unpack(Patched(b, KIDS_AT + PTR_SIZE * 4, p));
            t == s.(dataCount := p[0], data := s.data[0 := p[1..] + s.data[0][4..]])
  {
    Untouched(b, 87, p);
    assert DataAt(Patched(b, 87, p), 0) == p[1..] + DataAt(b, 0)[4..];
  }

  // ---------------------------------------------------------------- slots shifted

  /** Of the first count slots, those from the index on move up by one. */
  function ShiftedIn<T>(s: seq<T>, count: nat, index: nat, x: T): (r: seq<T>)
    requires index <= count < |s|
    ensures |r| == |s|
  {
    s[..index] + [x] + s[index..count] + s[count + 1..]
  }

  /** Of the first count slots, those behind the index move down by one; the last one stays behind. */
  function ShiftedOut<T>(s: seq<T>, count: nat, index: nat): (r: seq<T>)
    requires count <= |s|
    ensures |r| == |s|
  {
    if index >= count then s else s[..index] + s[index + 1..count] + s[count - 1..]
  }

  /** Half way: the slots above i have moved up already. */
  function Opening<T>(s: seq<T>, count: nat, i: nat): (r: seq<T>)
    requires i <= count < |s|
    ensures |r| == |s|
  {
    s[..i + 1] + s[i..count] + s[count + 1..]
  }

  lemma OpeningSteps<T>(s: seq<T>, count: nat, i: nat, x: T)
    requires i <= count < |s|
    ensures Opening(s, count, count) == s
    ensures i > 0 ==> Opening(s, count, i)[i - 1] == s[i - 1] && Opening(s, count, i)[i := s[i - 1]] == Opening(s, count, i - 1)
    ensures Opening(s, count, i)[i := x] == ShiftedIn(s, count, i, x)
  {
  }

  /** Half way: the slots from the index up to i have moved down already. */
  function Closing<T>(s: seq<T>, index: nat, i: nat): (r: seq<T>)
    requires index <= i < |s|
    ensures |r| == |s|
  {
    s[..index] + s[index + 1..i + 1] + s[i..]
  }

  lemma ClosingSteps<T>(s: seq<T>, count: nat, index: nat, i: nat)
    requires index <= i < count <= |s|
    ensures Closing(s, index, index) == s
    ensures i + 1 < count ==> Closing(s, index, i)[i + 1] == s[i + 1] && Closing(s, index, i)[i := s[i + 1]] == Closing(s, index, i + 1)
    ensures Closing(s, index, count - 1) == ShiftedOut(s, count, index)
  {
  }

  // ---------------------------------------------------------------- the record that the slots hold

  function Values(s: seq<seq<Byte>>): (r: seq<nat>)
    ensures |r| == |s| && forall i | 0 <= i < |s| :: r[i] == Value(s[i])
  {
    if s == [] then [] else [Value(s[0])] + Values(s[1..])
  }

  /** The counts do not pass their slots. */
  predicate InBounds(s: Slots) { Full(s) && s.keyCount <= 3 && s.kidCount <= 4 && s.dataCount <= 3 }

  lemma KeyValue(k: RawKey)
    ensures Value(k) < KEY_LIMIT
  {
    hide Value, Pow256;
    ValueBound(k);
    Pow20();
  }

  lemma Pow20()
    ensures Pow256(20) == KEY_LIMIT
  {
    assert Pow256(4) == 0x1_0000_0000;
    assert Pow256(8) == 0x1_0000_0000_0000_0000;
    assert Pow256(12) == 0x1_0000_0000_0000_0000_0000_0000;
    assert Pow256(16) == 0x1_0000_0000_0000_0000_0000_0000_0000_0000;
  }

  /** The number that a key spells. */
  function KeyOf(k: RawKey): (n: Key)
    ensures n == Value(k)
  {
    KeyValue(k);
    Value(k)
  }

  function RawKeys(s: seq<RawKey>): (r: seq<Key>)
    ensures |r| == |s| && forall i | 0 <= i < |s| :: r[i] == Value(s[i])
  {
    if s == [] then [] else [KeyOf(s[0])] + RawKeys(s[1..])
  }

  /** The node that the used slots tell. */
  function Told(s: Slots): Node<Optr>
    requires InBounds(s)
  {
    Node(Value(s.parent), RawKeys(s.keys[..s.keyCount]), s.data[..s.dataCount], Values(s.kids[..s.kidCount]))
  }

  lemma RawKeysSwap(s: seq<RawKey>, i: nat, j: nat)
    requires i < |s| && j < |s|
    ensures RawKeys(s[i := s[j]][j := s[i]]) == RawKeys(s)[i := RawKeys(s)[j]][j := RawKeys(s)[i]]
  {
    hide RawKeys;
    var a, b := RawKeys(s[i := s[j]][j := s[i]]), RawKeys(s)[i := RawKeys(s)[j]][j := RawKeys(s)[i]];
    assert forall k | 0 <= k < |s| :: a[k] == b[k];
  }

  // ---------------------------------------------------------------- memory around a node

  /** From one memory to the other only the node at the address may have changed. */
  ghost predicate Only(m: seq<Byte>, n: seq<Byte>, at: nat) {
    at + NODE_SIZE <= |m| == |n| && n == Patched(m, at, n[at..at + NODE_SIZE])
  }

  lemma OnlyTwice(m: seq<Byte>, n: seq<Byte>, o: seq<Byte>, at: nat)
    requires Only(m, n, at) && Only(n, o, at)
    ensures Only(m, o, at)
  {
  }

  lemma OnlyNothing(m: seq<Byte>, at: nat)
    requires at + NODE_SIZE <= |m|
    ensures Only(m, m, at)
  {
  }

  lemma NoPatch(m: seq<Byte>, at: nat)
    requires at <= |m|
    ensures Patched(m, at, []) == m
  {
  }

  /** Nodes that do not overlap do not see each other's writes. */
  lemma OtherNode(m: seq<Byte>, n: seq<Byte>, at: nat, other: nat)
    requires Only(m, n, at) && other + NODE_SIZE <= |m|
    requires at + NODE_SIZE <= other || other + NODE_SIZE <= at
    ensures n[other..other + NODE_SIZE] == m[other..other + NODE_SIZE]
  {
    PatchedOutside(m, at, n[at..at + NODE_SIZE], other, other + NODE_SIZE);
  }

  /** A write inside a node, seen from the node and from the memory. */
  lemma PatchPart(m: seq<Byte>, at: nat, offset: nat, src: seq<Byte>)
    requires at + NODE_SIZE <= |m| && offset + |src| <= NODE_SIZE
    ensures Patched(m, at + offset, src)[at..at + NODE_SIZE] == Patched(m[at..at + NODE_SIZE], offset, src)
    ensures Only(m, Patched(m, at + offset, src), at)
  {
    var n := Patched(m, at + offset, src);
    var b, c := n[at..at + NODE_SIZE], Patched(m[at..at + NODE_SIZE], offset, src);
    assert forall k | 0 <= k < NODE_SIZE :: b[k] == n[at + k];
    assert b == c;
    assert n == Patched(m, at, b);
  }

  /** A fourth data pointer leaves the node alone and becomes the parent of the node behind it. */
  lemma FourthData(m: seq<Byte>, at: nat, p: Optr)
    requires at + 2 * NODE_SIZE <= |m|
    ensures var n, next := Patched(m, at + DATA_AT + PTR_SIZE * 3, p), at + NODE_SIZE;
            && n[at..next] == m[at..next]
            && Unpack(n[next..next + NODE_SIZE]) == Unpack(m[next..next + NODE_SIZE]).(parent := p)
  {
    PatchedOutside(m, at + NODE_SIZE, p, at, at + NODE_SIZE);
    PatchPart(m, at + NODE_SIZE, 0, p);
    ParentPatch(m[at + NODE_SIZE..at + 2 * NODE_SIZE], p);
  }

  // ---------------------------------------------------------------- the item set

  function Zeros(n: nat): (s: seq<Byte>)
    ensures |s| == n && forall i | 0 <= i < n :: s[i] == 0
  {
    if n == 0 then [] else [0] + Zeros(n - 1)
  }

  /** A number cut to a byte. */
  /** The first slots hold xs, the others what they held. */
  function Fronted<T>(s: seq<T>, xs: seq<T>): seq<T>
    requires |xs| <= |s|
  {
    xs + s[|xs|..]
  }

  lemma FrontStep<T>(s: seq<T>, xs: seq<T>, i: nat)
    requires i <= |xs| <= |s|
    ensures i == 0 ==> Fronted(s, xs[..i]) == s
    ensures i < |xs| ==> |Fronted(s, xs[..i])| == |s| && Fronted(s, xs[..i])[i := xs[i]] == Fronted(s, xs[..i + 1])
  {
  }

  function Cut(n: nat): Byte { n % 256 }

  lemma CutSmall(n: nat)
    requires n < 256
    ensures Cut(n) == n
  {
  }

  lemma SpansSlot(mem: array<Byte>, at: Optr, index: nat)
    requires Spans(mem, at, NODE_SIZE) && index < 3
    ensures Spans(mem, at, DATA_AT + PTR_SIZE * index + PTR_SIZE)
  {
  }

  lemma NothingBehind<T>(s: seq<T>, count: nat, index: nat)
    requires count <= |s| && count <= index
    ensures ShiftedOut(s, count, index) == s
  {
  }

  class ONodeItemSet {
    const mem: array<Byte>
    const at: Optr

    constructor (mem: array<Byte>, at: Optr)
      ensures this.mem == mem && this.at == at
    {
      this.mem, this.at := mem, at;
    }

    /** The node lies in memory, where pointers can be added to. */
    ghost predicate Valid() { Spans(mem, at, NODE_SIZE) }

    ghost function Bytes(): (b: seq<Byte>)
      requires Valid()
      reads mem
      ensures |b| == NODE_SIZE
    {
      mem[Value(at)..Value(at) + NODE_SIZE]
    }

    ghost function View(): Slots
      requires Valid()
      reads mem
    {
      Unpack(Bytes())
    }

    method Write(offset: nat, src: seq<Byte>)
      requires Valid() && offset + |src| <= NODE_SIZE
      modifies mem
      ensures Bytes() == Patched(old(Bytes()), offset, src) && Only(old(mem[..]), mem[..], Value(at))
    {
      ghost var m, a := mem[..], Value(at);
      PatchPart(m, a, offset, src);
      NoPatch(m, a + offset);
      assert Bytes() == m[a..a + NODE_SIZE];
      hide Value, Plus, Only, Patched;
      if src != [] {
        Place(at, offset);
        CopyTo(mem, Plus(at, offset).value, src);
      }
      assert mem[..] == Patched(m, a + offset, src);
      assert Bytes() == mem[..][a..a + NODE_SIZE];
    }

    method Read(offset: nat, n: nat) returns (r: seq<Byte>)
      requires Valid() && offset + n <= NODE_SIZE
      ensures r == Bytes()[offset..offset + n]
    {
      r := [];
      if n == 0 { return; }
      Within(mem[..], Value(at), NODE_SIZE, offset, offset + n);
      assert mem[..][Value(at)..Value(at) + NODE_SIZE] == Bytes();
      hide Value, Plus;
      Place(at, offset);
      r := CopyFrom(mem, Plus(at, offset).value, n);
    }

    method Clear()
      requires Valid()
      modifies mem
      ensures Bytes() == Zeros(NODE_SIZE) && Only(old(mem[..]), mem[..], Value(at))
    {
      Write(0, Zeros(NODE_SIZE));
      assert Bytes()[..] == Bytes();
    }

    /** No parent is written as zeros. */
    method SetParent(p: Option<Optr>)
      requires Valid()
      modifies mem
      ensures View() == old(View()).(parent := if p.Some? then p.value else [0, 0, 0, 0, 0])
      ensures Only(old(mem[..]), mem[..], Value(at))
    {
      var raw: Optr := if p.Some? then p.value else [0, 0, 0, 0, 0];
      ParentPatch(Bytes(), raw);
      Write(0, raw);
    }

    // -------------------------------------------------------------- keys

    method KeyCount() returns (n: Byte)
      requires Valid()
      ensures n == View().keyCount
    {
      var b := Read(KEY_COUNT_AT, 1);
      n := b[0];
    }

    /** The count is cut to a byte. */
    method SetKeyCount(n: nat)
      requires Valid()
      modifies mem
      ensures View() == old(View()).(keyCount := Cut(n))
      ensures Only(old(mem[..]), mem[..], Value(at))
    {
      CountPatch(Bytes(), Cut(n));
      Write(KEY_COUNT_AT, [Cut(n)]);
    }

    method Key(index: nat) returns (x: RawKey)
      requires Valid() && index < 3
      ensures x == View().keys[index]
    {
      x := Read(KEYS_AT + KEY_SIZE * index, KEY_SIZE);
    }

    /** The guard is one too wide: slot 3 is where the child count is (FourthKey). */
    method SetKey(index: nat, x: RawKey)
      requires Valid()
      modifies mem
      ensures index < 3 ==> View() == old(View()).(keys := old(View()).keys[index := x])
      ensures index == 3 ==> Bytes() == Patched(old(Bytes()), KID_COUNT_AT, x)
      ensures index > 3 ==> Bytes() == old(Bytes())
      ensures Only(old(mem[..]), mem[..], Value(at))
    {
      OnlyNothing(mem[..], Value(at));
      if index > 3 { return; }
      if index < 3 { KeyPatch(Bytes(), index, x); }
      Write(KEYS_AT + KEY_SIZE * index, x);
    }

    /** From the back, each slot down to the index takes what is below it. */
    method MoveInsertKey(index: nat, x: RawKey)
      requires Valid() && index <= View().keyCount < 3
      modifies mem
      ensures View() == old(View()).(keys := ShiftedIn(old(View()).keys, old(View()).keyCount, index, x))
      ensures Only(old(mem[..]), mem[..], Value(at))
    {
      ghost var v, m := View(), mem[..];
      var count := KeyCount();
      var i: nat := count;
      OpeningSteps(v.keys, count, count, x);
      OnlyNothing(m, Value(at));
      assert count < |v.keys|;
      hide *;
      while i > index
        invariant index <= i <= count
        invariant View() == v.(keys := Opening(v.keys, count, i)) && Only(m, mem[..], Value(at))
      {
        OpeningSteps(v.keys, count, i, x);
        var y := Key(i - 1);
        ghost var n := mem[..];
        SetKey(i, y);
        OnlyTwice(m, n, mem[..], Value(at));
        i := i - 1;
      }
      OpeningSteps(v.keys, count, i, x);
      ghost var n := mem[..];
      SetKey(index, x);
      OnlyTwice(m, n, mem[..], Value(at));
    }

    /** Each slot from the index on takes what is above it; an empty node stays as it is. */
    method MoveDeleteKey(index: nat)
      requires Valid() && View().keyCount <= 3
      modifies mem
      ensures View() == if old(View()).keyCount == 0 then old(View()) else
        old(View()).(keys := ShiftedOut(old(View()).keys, old(View()).keyCount, index), keyCount := old(View()).keyCount - 1)
      ensures Only(old(mem[..]), mem[..], Value(at))
    {
      ghost var v, m := View(), mem[..];
      OnlyNothing(m, Value(at));
      assert Full(v) && |v.keys| >= v.keyCount;
      hide *;
      var count: nat := KeyCount();
      if count == 0 { return; }
      CloseKey(index, count);
      ghost var n := mem[..];
      CutSmall(count - 1);
      SetKeyCount(count - 1);
      OnlyTwice(m, n, mem[..], Value(at));
    }

    method CloseKey(index: nat, count: nat)
      requires Valid() && count <= 3
      modifies mem
      ensures View() == old(View()).(keys := ShiftedOut(old(View()).keys, count, index))
      ensures Only(old(mem[..]), mem[..], Value(at))
    {
      ghost var v, m := View(), mem[..];
      var i := index;
      OnlyNothing(m, Value(at));
      if index >= count {
        NothingBehind(v.keys, count, index);
        return;
      }
      ClosingSteps(v.keys, count, index, index);
      hide Unpack, Only, Closing, ShiftedOut, Value;
      while i < count - 1
        invariant index <= i <= count - 1
        invariant View() == v.(keys := Closing(v.keys, index, i)) && Only(m, mem[..], Value(at))
      {
        ClosingSteps(v.keys, count, index, i);
        var y := Key(i + 1);
        ghost var n := mem[..];
        SetKey(i, y);
        OnlyTwice(m, n, mem[..], Value(at));
        i := i + 1;
      }
    }

    // -------------------------------------------------------------- kids

    method KidCount() returns (n: Byte)
      requires Valid()
      ensures n == View().kidCount
    {
      var b := Read(KID_COUNT_AT, 1);
      n := b[0];
    }

    /** The count is cut to a byte. */
    method SetKidCount(n: nat)
      requires Valid()
      modifies mem
      ensures View() == old(View()).(kidCount := Cut(n))
      ensures Only(old(mem[..]), mem[..], Value(at))
    {
      CountPatch(Bytes(), Cut(n));
      Write(KID_COUNT_AT, [Cut(n)]);
    }

    method Kid(index: nat) returns (x: Optr)
      requires Valid() && index < 4
      ensures x == View().kids[index]
    {
      x := Read(KIDS_AT + PTR_SIZE * index, PTR_SIZE);
    }

    /** The guard is one too wide: slot 4 is where the data count is (FifthKid). */
    method SetKid(index: nat, x: Optr)
      requires Valid()
      modifies mem
      ensures index < 4 ==> View() == old(View()).(kids := old(View()).kids[index := x])
      ensures index == 4 ==> Bytes() == Patched(old(Bytes()), DATA_COUNT_AT, x)
      ensures index > 4 ==> Bytes() == old(Bytes())
      ensures Only(old(mem[..]), mem[..], Value(at))
    {
      OnlyNothing(mem[..], Value(at));
      if index > 4 { return; }
      if index < 4 { KidPatch(Bytes(), index, x); }
      Write(KIDS_AT + PTR_SIZE * index, x);
    }

    /** From the back, each slot down to the index takes what is below it. */
    method MoveInsertKid(index: nat, x: Optr)
      requires Valid() && index <= View().kidCount < 4
      modifies mem
      ensures View() == old(View()).(kids := ShiftedIn(old(View()).kids, old(View()).kidCount, index, x))
      ensures Only(old(mem[..]), mem[..], Value(at))
    {
      ghost var v, m := View(), mem[..];
      var count := KidCount();
      var i: nat := count;
      OpeningSteps(v.kids, count, count, x);
      OnlyNothing(m, Value(at));
      assert count < |v.kids|;
      hide *;
      while i > index
        invariant index <= i <= count
        invariant View() == v.(kids := Opening(v.kids, count, i)) && Only(m, mem[..], Value(at))
      {
        OpeningSteps(v.kids, count, i, x);
        var y := Kid(i - 1);
        ghost var n := mem[..];
        SetKid(i, y);
        OnlyTwice(m, n, mem[..], Value(at));
        i := i - 1;
      }
      OpeningSteps(v.kids, count, i, x);
      ghost var n := mem[..];
      SetKid(index, x);
      OnlyTwice(m, n, mem[..], Value(at));
    }

    /** Each slot from the index on takes what is above it; an empty node stays as it is. */
    method MoveDeleteKid(index: nat)
      requires Valid() && View().kidCount <= 4
      modifies mem
      ensures View() == if old(View()).kidCount == 0 then old(View()) else
        old(View()).(kids := ShiftedOut(old(View()).kids, old(View()).kidCount, index), kidCount := old(View()).kidCount - 1)
      ensures Only(old(mem[..]), mem[..], Value(at))
    {
      ghost var v, m := View(), mem[..];
      OnlyNothing(m, Value(at));
      assert Full(v) && |v.kids| >= v.kidCount;
      hide *;
      var count: nat := KidCount();
      if count == 0 { return; }
      CloseKid(index, count);
      ghost var n := mem[..];
      CutSmall(count - 1);
      SetKidCount(count - 1);
      OnlyTwice(m, n, mem[..], Value(at));
    }

    method CloseKid(index: nat, count: nat)
      requires Valid() && count <= 4
      modifies mem
      ensures View() == old(View()).(kids := ShiftedOut(old(View()).kids, count, index))
      ensures Only(old(mem[..]), mem[..], Value(at))
    {
      ghost var v, m := View(), mem[..];
      var i := index;
      OnlyNothing(m, Value(at));
      if index >= count {
        NothingBehind(v.kids, count, index);
        return;
      }
      ClosingSteps(v.kids, count, index, index);
      hide Unpack, Only, Closing, ShiftedOut, Value;
      while i < count - 1
        invariant index <= i <= count - 1
        invariant View() == v.(kids := Closing(v.kids, index, i)) && Only(m, mem[..], Value(at))
      {
        ClosingSteps(v.kids, count, index, i);
        var y := Kid(i + 1);
        ghost var n := mem[..];
        SetKid(i, y);
        OnlyTwice(m, n, mem[..], Value(at));
        i := i + 1;
      }
    }

    // -------------------------------------------------------------- data

    method DataCount() returns (n: Byte)
      requires Valid()
      ensures n == View().dataCount
    {
      var b := Read(DATA_COUNT_AT, 1);
      n := b[0];
    }

    /** The count is cut to a byte. */
    method SetDataCount(n: nat)
      requires Valid()
      modifies mem
      ensures View() == old(View()).(dataCount := Cut(n))
      ensures Only(old(mem[..]), mem[..], Value(at))
    {
      CountPatch(Bytes(), Cut(n));
      Write(DATA_COUNT_AT, [Cut(n)]);
    }

    method Data(index: nat) returns (x: Optr)
      requires Valid() && index < 3
      ensures x == View().data[index]
    {
      x := Read(DATA_AT + PTR_SIZE * index, PTR_SIZE);
    }

    /** There is no guard: slots from 3 on lie behind the node (FourthData). */
    method SetData(index: nat, x: Optr)
      requires Valid() && Spans(mem, at, DATA_AT + PTR_SIZE * index + PTR_SIZE)
      modifies mem
      ensures index < 3 ==> View() == old(View()).(data := old(View()).data[index := x])
      ensures index < 3 ==> Only(old(mem[..]), mem[..], Value(at))
      ensures mem[..] == Patched(old(mem[..]), Value(at) + DATA_AT + PTR_SIZE * index, x)
    {
      ghost var m, a := mem[..], Value(at);
      var offset := DATA_AT + PTR_SIZE * index;
      if index < 3 {
        DataPatch(Bytes(), index, x);
        PatchPart(m, a, offset, x);
        assert Bytes() == m[a..a + NODE_SIZE];
      }
      hide *;
      WriteAnywhere(offset, x);
      assert index < 3 ==> Bytes() == mem[..][a..a + 103];
    }

    method WriteAnywhere(offset: nat, src: seq<Byte>)
      requires src != [] && Spans(mem, at, offset + |src|)
      modifies mem
      ensures mem[..] == Patched(old(mem[..]), Value(at) + offset, src)
    {
      Place(at, offset);
      hide Value, Plus;
      CopyTo(mem, Plus(at, offset).value, src);
    }

    /** Within the node. */
    method PutData(index: nat, x: Optr)
      requires Valid() && index < 3
      modifies mem
      ensures View() == old(View()).(data := old(View()).data[index := x])
      ensures Only(old(mem[..]), mem[..], Value(at))
    {
      SpansSlot(mem, at, index);
      SetData(index, x);
    }

    /** From the back, each slot down to the index takes what is below it. */
    method MoveInsertData(index: nat, x: Optr)
      requires Valid() && index <= View().dataCount < 3
      modifies mem
      ensures View() == old(View()).(data := ShiftedIn(old(View()).data, old(View()).dataCount, index, x))
      ensures Only(old(mem[..]), mem[..], Value(at))
    {
      ghost var v, m := View(), mem[..];
      var count := DataCount();
      var i: nat := count;
      OpeningSteps(v.data, count, count, x);
      OnlyNothing(m, Value(at));
      assert count < |v.data|;
      hide *;
      while i > index
        invariant index <= i <= count
        invariant View() == v.(data := Opening(v.data, count, i)) && Only(m, mem[..], Value(at))
      {
        OpeningSteps(v.data, count, i, x);
        var y := Data(i - 1);
        ghost var n := mem[..];
        PutData(i, y);
        OnlyTwice(m, n, mem[..], Value(at));
        i := i - 1;
      }
      OpeningSteps(v.data, count, i, x);
      ghost var n := mem[..];
      PutData(index, x);
      OnlyTwice(m, n, mem[..], Value(at));
    }

    /** Each slot from the index on takes what is above it; an empty node stays as it is. */
    method MoveDeleteData(index: nat)
      requires Valid() && View().dataCount <= 3
      modifies mem
      ensures View() == if old(View()).dataCount == 0 then old(View()) else
        old(View()).(data := ShiftedOut(old(View()).data, old(View()).dataCount, index), dataCount := old(View()).dataCount - 1)
      ensures Only(old(mem[..]), mem[..], Value(at))
    {
      ghost var v, m := View(), mem[..];
      OnlyNothing(m, Value(at));
      assert Full(v) && |v.data| >= v.dataCount;
      hide *;
      var count: nat := DataCount();
      if count == 0 { return; }
      CloseData(index, count);
      ghost var n := mem[..];
      CutSmall(count - 1);
      SetDataCount(count - 1);
      OnlyTwice(m, n, mem[..], Value(at));
    }

    method CloseData(index: nat, count: nat)
      requires Valid() && count <= 3
      modifies mem
      ensures View() == old(View()).(data := ShiftedOut(old(View()).data, count, index))
      ensures Only(old(mem[..]), mem[..], Value(at))
    {
      ghost var v, m := View(), mem[..];
      var i := index;
      OnlyNothing(m, Value(at));
      if index >= count {
        NothingBehind(v.data, count, index);
        return;
      }
      ClosingSteps(v.data, count, index, index);
      hide Unpack, Only, Patched, Spans, Closing, ShiftedOut, Value;
      while i < count - 1
        invariant index <= i <= count - 1
        invariant View() == v.(data := Closing(v.data, index, i)) && Only(m, mem[..], Value(at))
      {
        ClosingSteps(v.data, count, index, i);
        var y := Data(i + 1);
        ghost var n := mem[..];
        PutData(i, y);
        OnlyTwice(m, n, mem[..], Value(at));
        i := i + 1;
      }
    }

    // -------------------------------------------------------------- order

    /** Neighbours are exchanged from the back until the front is settled. */
    method SortKey()
      requires Valid() && View().keyCount <= 3
      modifies mem
      ensures Reordered(old(View()), View()) && Only(old(mem[..]), mem[..], Value(at))
      ensures Ordered(View())
    {
      ghost var v, m := View(), mem[..];
      OnlyNothing(m, Value(at));
      SortingStarts(v);
      hide *;
      var count := KeyCount();
      var i := 0;
      while i + 1 < count
        invariant 0 <= i && (count > 0 ==> i < count) && Sorting(v, View(), i) && View().keyCount == count <= 3
        invariant Only(m, mem[..], Value(at))
      {
        ghost var w, n := View(), mem[..];
        BubbleKey(i);
        SortingStep(v, w, View(), i);
        OnlyTwice(m, n, mem[..], Value(at));
        i := i + 1;
      }
      SortingEnds(v, View(), i);
    }

    /** The least key of those from i on bubbles down to i. */
    method BubbleKey(i: nat)
      requires Valid() && i < View().keyCount <= 3
      modifies mem
      ensures Bubbled(old(View()), View(), i, i) && View().keyCount == old(View()).keyCount
      ensures Only(old(mem[..]), mem[..], Value(at))
    {
      ghost var v, m := View(), mem[..];
      OnlyNothing(m, Value(at));
      BubblingStarts(v, i);
      hide *;
      var j: nat := KeyCount();
      j := j - 1;
      while j > i
        invariant i <= j < View().keyCount == v.keyCount <= 3 && Bubbled(v, View(), i, j)
        invariant Only(m, mem[..], Value(at))
      {
        ghost var w, n := View(), mem[..];
        var a := Key(j);
        var b := Key(j - 1);
        BubblingStep(v, w, i, j);
        if Compare(b, a) == Greater {
          SetKey(j, b);
          OnlyTwice(m, n, mem[..], Value(at));
          n := mem[..];
          SetKey(j - 1, a);
          OnlyTwice(m, n, mem[..], Value(at));
        }
        j := j - 1;
      }
    }

    /** The key is written behind the others, the slots are sorted, and the key is looked for. */
    method PlaceKey(k: RawKey) returns (index: nat)
      requires Valid() && Full(View()) && View().keyCount < 3 && Ascending(Vals(View())) && KeyOf(k) !in Vals(View())
      modifies mem
      ensures Full(View()) && View() == old(View()).(keys := View().keys, keyCount := old(View()).keyCount + 1)
      ensures index == KeyRank(Vals(old(View())), KeyOf(k)) && Vals(View()) == InsertAt(Vals(old(View())), index, KeyOf(k))
      ensures Only(old(mem[..]), mem[..], Value(at))
    {
      ghost var v, m := View(), mem[..];
      OnlyNothing(m, Value(at));
      OneKeyMore(v, k);
      hide *;
      var count: nat := KeyCount();
      ghost var n := mem[..];
      SetKey(count, k);
      OnlyTwice(m, n, mem[..], Value(at));
      n := mem[..];
      CutSmall(count + 1);
      SetKeyCount(count + 1);
      OnlyTwice(m, n, mem[..], Value(at));
      n := mem[..];
      ghost var v1 := View();
      SortKey();
      OnlyTwice(m, n, mem[..], Value(at));
      index := FindKey(k, v, v1);
    }

    /** The key is where its rank is. */
    method FindKey(k: RawKey, ghost v: Slots, ghost w: Slots) returns (index: nat)
      requires Valid() && Full(v) && v.keyCount < 3 && Ascending(Vals(v)) && KeyOf(k) !in Vals(v)
      requires w == v.(keys := w.keys, keyCount := v.keyCount + 1) && Full(w) && Vals(w) == Vals(v) + [KeyOf(k)]
      requires Reordered(w, View()) && Ordered(View())
      ensures Full(View()) && View() == v.(keys := View().keys, keyCount := v.keyCount + 1)
      ensures index == KeyRank(Vals(v), KeyOf(k)) && Vals(View()) == InsertAt(Vals(v), index, KeyOf(k))
    {
      ReorderedSizes(w, View());
      ghost var rank := KeyRank(Vals(v), KeyOf(k));
      SortedPlace(v, w, View(), k);
      var count := KeyCount();
      index := 0;
      hide *;
      while index < count
        invariant index <= rank < count
        decreases count - index
      {
        KeyAtRank(View(), k, rank, index);
        var x := Key(index);
        if x == k { return; }
        index := index + 1;
      }
    }

    /** Key, data pointer and, in an inner node, the child right of them enter a node with room. */
    method SimpleAdd(k: RawKey, d: Optr, right: Option<Optr>)
      requires Valid() && InBounds(View()) && View().keyCount == View().dataCount < 3
      requires Ascending(Told(View()).keys) && KeyOf(k) !in Told(View()).keys
      requires right.Some? ==> View().kidCount == View().keyCount + 1 && Value(right.value) != NULL
      modifies mem
      ensures InBounds(View()) && Only(old(mem[..]), mem[..], Value(at))
      ensures Told(View()) == WidenNode(Told(old(View())), KeyOf(k), d, if right.Some? then Value(right.value) else NULL)
    {
      ghost var v, m := View(), mem[..];
      OnlyNothing(m, Value(at));
      ToldVals(v);
      var index := PlaceKey(k);
      ghost var w, n := View(), mem[..];
      WidenTold(v, w, k, d, right);
      assert index <= v.keyCount == w.dataCount;
      hide *;
      AddPointer(index, d);
      OnlyTwice(m, n, mem[..], Value(at));
      if right.Some? {
        n := mem[..];
        AddKid(index + 1, right.value);
        OnlyTwice(m, n, mem[..], Value(at));
      }
    }

    method AddPointer(index: nat, d: Optr)
      requires Valid() && index <= View().dataCount < 3
      modifies mem
      ensures View() == old(View()).(data := ShiftedIn(old(View()).data, old(View()).dataCount, index, d),
                                     dataCount := old(View()).dataCount + 1)
      ensures Only(old(mem[..]), mem[..], Value(at))
    {
      ghost var m := mem[..];
      hide *;
      var count: nat := DataCount();
      MoveInsertData(index, d);
      ghost var n := mem[..];
      CutSmall(count + 1);
      SetDataCount(count + 1);
      OnlyTwice(m, n, mem[..], Value(at));
    }

    /** The child count is made one more than the key count. */
    method AddKid(index: nat, kid: Optr)
      requires Valid() && index <= View().kidCount < 4 && View().keyCount <= 3
      modifies mem
      ensures View() == old(View()).(kids := ShiftedIn(old(View()).kids, old(View()).kidCount, index, kid),
                                     kidCount := old(View()).keyCount + 1)
      ensures Only(old(mem[..]), mem[..], Value(at))
    {
      ghost var m := mem[..];
      hide *;
      var count: nat := KeyCount();
      MoveInsertKid(index, kid);
      ghost var n := mem[..];
      CutSmall(count + 1);
      SetKidCount(count + 1);
      OnlyTwice(m, n, mem[..], Value(at));
    }

    /** A node is written anew, as a split does to both halves and a new root to itself: keys and pointers, and children if any. */
    method Fill(ks: seq<RawKey>, ds: seq<Optr>, cs: seq<Optr>)
      requires Valid() && InBounds(View()) && |ks| == |ds| <= 3 && |cs| <= 4
      modifies mem
      ensures InBounds(View()) && Only(old(mem[..]), mem[..], Value(at))
      ensures Told(View()) == Node(Told(old(View())).parent, RawKeys(ks), ds, if cs == [] then Told(old(View())).kids else Values(cs))
    {
      ghost var v, m := View(), mem[..];
      FillTold(v, ks, ds, cs);
      hide *;
      FillKeys(ks);
      ghost var n := mem[..];
      FillData(ds);
      OnlyTwice(m, n, mem[..], Value(at));
      if cs != [] {
        n := mem[..];
        FillKids(cs);
        OnlyTwice(m, n, mem[..], Value(at));
      }
    }

    method FillKeys(xs: seq<RawKey>)
      requires Valid() && |xs| <= 3
      modifies mem
      ensures View() == old(View()).(keys := Fronted(old(View()).keys, xs), keyCount := |xs|)
      ensures Only(old(mem[..]), mem[..], Value(at))
    {
      ghost var v, m := View(), mem[..];
      var i := 0;
      OnlyNothing(m, Value(at));
      assert |v.keys| == 3;
      FrontStep(v.keys, xs, 0);
      hide *;
      while i < |xs|
        invariant 0 <= i <= |xs|
        invariant View() == v.(keys := Fronted(v.keys, xs[..i])) && Only(m, mem[..], Value(at))
      {
        FrontStep(v.keys, xs, i);
        ghost var n := mem[..];
        SetKey(i, xs[i]);
        OnlyTwice(m, n, mem[..], Value(at));
        i := i + 1;
      }
      assert xs[..i] == xs;
      ghost var n := mem[..];
      CutSmall(|xs|);
      SetKeyCount(|xs|);
      OnlyTwice(m, n, mem[..], Value(at));
    }

    method FillData(xs: seq<Optr>)
      requires Valid() && |xs| <= 3
      modifies mem
      ensures View() == old(View()).(data := Fronted(old(View()).data, xs), dataCount := |xs|)
      ensures Only(old(mem[..]), mem[..], Value(at))
    {
      ghost var v, m := View(), mem[..];
      var i := 0;
      OnlyNothing(m, Value(at));
      assert |v.data| == 3;
      FrontStep(v.data, xs, 0);
      hide *;
      while i < |xs|
        invariant 0 <= i <= |xs|
        invariant View() == v.(data := Fronted(v.data, xs[..i])) && Only(m, mem[..], Value(at))
      {
        FrontStep(v.data, xs, i);
        ghost var n := mem[..];
        PutData(i, xs[i]);
        OnlyTwice(m, n, mem[..], Value(at));
        i := i + 1;
      }
      assert xs[..i] == xs;
      ghost var n := mem[..];
      CutSmall(|xs|);
      SetDataCount(|xs|);
      OnlyTwice(m, n, mem[..], Value(at));
    }

    method FillKids(xs: seq<Optr>)
      requires Valid() && |xs| <= 4
      modifies mem
      ensures View() == old(View()).(kids := Fronted(old(View()).kids, xs), kidCount := |xs|)
      ensures Only(old(mem[..]), mem[..], Value(at))
    {
      ghost var v, m := View(), mem[..];
      var i := 0;
      OnlyNothing(m, Value(at));
      assert |v.kids| == 4;
      FrontStep(v.kids, xs, 0);
      hide *;
      while i < |xs|
        invariant 0 <= i <= |xs|
        invariant View() == v.(kids := Fronted(v.kids, xs[..i])) && Only(m, mem[..], Value(at))
      {
        FrontStep(v.kids, xs, i);
        ghost var n := mem[..];
        SetKid(i, xs[i]);
        OnlyTwice(m, n, mem[..], Value(at));
        i := i + 1;
      }
      assert xs[..i] == xs;
      ghost var n := mem[..];
      CutSmall(|xs|);
      SetKidCount(|xs|);
      OnlyTwice(m, n, mem[..], Value(at));
    }

    /** A key and its data pointer go. */
    method Remove(index: nat)
      requires Valid() && InBounds(View()) && View().keyCount == View().dataCount
      modifies mem
      ensures InBounds(View()) && Only(old(mem[..]), mem[..], Value(at))
      ensures var was, now := Told(old(View())), Told(View());
        now == if index >= |was.keys| then was.(keys := ButLast(was.keys), data := ButLast(was.data))
               else was.(keys := RemoveAt(was.keys, index), data := RemoveAt(was.data, index))
    {
      ghost var v, m := View(), mem[..];
      RemoveTold(v, index);
      MoveDeleteKey(index);
      ghost var n := mem[..];
      MoveDeleteData(index);
      OnlyTwice(m, n, mem[..], Value(at));
    }
  }

  lemma FillTold(v: Slots, ks: seq<RawKey>, ds: seq<Optr>, cs: seq<Optr>)
    requires InBounds(v) && |ks| == |ds| <= 3 && |cs| <= 4
    ensures var x := v.(keys := Fronted(v.keys, ks), keyCount := |ks|).(data := Fronted(v.data, ds), dataCount := |ds|);
            var y := if cs == [] then x else x.(kids := Fronted(v.kids, cs), kidCount := |cs|);
            InBounds(y) && Told(y) == Node(Told(v).parent, RawKeys(ks), ds, if cs == [] then Told(v).kids else Values(cs))
  {
    assert Fronted(v.keys, ks)[..|ks|] == ks && Fronted(v.data, ds)[..|ds|] == ds;
    if cs != [] { assert Fronted(v.kids, cs)[..|cs|] == cs; }
  }

  lemma ToldVals(v: Slots)
    requires InBounds(v)
    ensures Told(v).keys == Vals(v)
  {
  }

  lemma OneKeyMore(v: Slots, k: RawKey)
    requires Full(v) && v.keyCount < 3
    ensures var w := v.(keys := v.keys[v.keyCount := k], keyCount := v.keyCount + 1);
            Full(w) && Vals(w) == Vals(v) + [KeyOf(k)]
  {
    var w := v.(keys := v.keys[v.keyCount := k], keyCount := v.keyCount + 1);
    assert w.keys[..w.keyCount] == v.keys[..v.keyCount] + [k];
    assert RawKeys([k]) == [KeyOf(k)];
    hide RawKeys;
    RawKeysJoin(v.keys[..v.keyCount], [k]);
  }

  lemma SortedPlace(v: Slots, w: Slots, x: Slots, k: RawKey)
    requires Full(v) && v.keyCount < 3 && Ascending(Vals(v)) && KeyOf(k) !in Vals(v)
    requires Full(w) && w.keyCount <= 3 && Vals(w) == Vals(v) + [KeyOf(k)] && Reordered(w, x) && Ordered(x)
    ensures Full(x) && x.keyCount <= 3 && Vals(x) == InsertAt(Vals(v), KeyRank(Vals(v), KeyOf(k)), KeyOf(k))
    ensures KeyRank(Vals(v), KeyOf(k)) < x.keyCount
  {
    hide Vals;
    SortPlaces(Vals(v), KeyOf(k), Vals(x));
    KeyRankSplits(Vals(v), KeyOf(k));
  }

  /** Looking for the key's bytes is looking for its number. */
  lemma KeyAtRank(x: Slots, k: RawKey, rank: nat, i: nat)
    requires Full(x) && x.keyCount <= 3 && i <= rank < x.keyCount && Vals(x)[rank] == KeyOf(k)
    requires forall j | 0 <= j < rank :: Vals(x)[j] != KeyOf(k)
    ensures x.keys[i] == k <==> i == rank
  {
    var s := x.keys[..x.keyCount];
    assert s[i] == x.keys[i] && Vals(x)[i] == Value(s[i]);
    if i == rank { ValueInjective(x.keys[i], k); }
  }

  /** All slots and counts together. */
  lemma WidenTold(v: Slots, w: Slots, k: RawKey, d: Optr, right: Option<Optr>)
    requires InBounds(v) && v.keyCount == v.dataCount < 3 && (right.Some? ==> v.kidCount == v.keyCount + 1 && Value(right.value) != NULL)
    requires Full(w) && w == v.(keys := w.keys, keyCount := v.keyCount + 1)
    requires Vals(w) == InsertAt(Vals(v), KeyRank(Vals(v), KeyOf(k)), KeyOf(k))
    ensures var i := KeyRank(Vals(v), KeyOf(k));
            && i <= v.keyCount
            && var x := w.(data := ShiftedIn(v.data, v.dataCount, i, d), dataCount := v.dataCount + 1);
               var y := if right.None? then x
                        else x.(kids := ShiftedIn(v.kids, v.kidCount, i + 1, right.value), kidCount := w.keyCount + 1);
               InBounds(y) && Told(y) == WidenNode(Told(v), KeyOf(k), d, if right.Some? then Value(right.value) else NULL)
  {
    var i := KeyRank(Vals(v), KeyOf(k));
    KeyRankSplits(Vals(v), KeyOf(k));
    ShiftedInIs(v.data, v.dataCount, i, d);
    if right.Some? {
      ShiftedInIs(v.kids, v.kidCount, i + 1, right.value);
      ValuesInsert(v.kids[..v.kidCount], i + 1, right.value);
    }
    hide RawKeys, Values, Value;
  }

  function ButLast<T>(s: seq<T>): seq<T> { if s == [] then [] else s[..|s| - 1] }

  /** The numbers of the keys in use. */
  ghost function Vals(v: Slots): (r: seq<Key>)
    requires Full(v) && v.keyCount <= 3
    ensures |r| == v.keyCount
  {
    RawKeys(v.keys[..v.keyCount])
  }

  /** Only the keys in use were moved about. */
  ghost predicate Reordered(v: Slots, w: Slots) {
    && Full(v) && v.keyCount <= 3 && Full(w) && w == v.(keys := w.keys) && w.keys[w.keyCount..] == v.keys[v.keyCount..]
    && multiset(Vals(w)) == multiset(Vals(v))
  }

  ghost predicate Ordered(v: Slots) {
    Full(v) && v.keyCount <= 3 && forall p, q | 0 <= p < q < v.keyCount :: Vals(v)[p] <= Vals(v)[q]
  }

  /** The first i keys are where they belong. */
  ghost predicate Sorting(v: Slots, w: Slots, i: nat) {
    Reordered(v, w) && forall p, q | 0 <= p < i && p < q < w.keyCount :: Vals(w)[p] <= Vals(w)[q]
  }

  /** The first i keys stayed; of those from j on, the least is at j. */
  ghost predicate Bubbled(v: Slots, w: Slots, i: nat, j: nat) {
    Reordered(v, w) && i <= v.keyCount && Vals(w)[..i] == Vals(v)[..i] && j < w.keyCount && Least(Vals(w), j)
  }

  ghost predicate Least(s: seq<Key>, j: nat) { forall q | j < q < |s| :: s[j] <= s[q] }

  /** The keys with two neighbours exchanged. */
  ghost function Swapped(s: seq<Key>, j: nat): (r: seq<Key>)
    requires 0 < j < |s|
    ensures |r| == |s| && multiset(r) == multiset(s)
  {
    s[j := s[j - 1]][j - 1 := s[j]]
  }

  lemma SortingStarts(v: Slots)
    requires Full(v) && v.keyCount <= 3
    ensures Sorting(v, v, 0)
  {
  }

  lemma SortingStep(v: Slots, w: Slots, x: Slots, i: nat)
    requires Sorting(v, w, i) && Bubbled(w, x, i, i)
    ensures Sorting(v, x, i + 1)
  {
    hide Vals;
    assert forall q | i < q < x.keyCount :: Vals(x)[i] <= Vals(x)[q];
    SamePrefix(Vals(w), Vals(x), i);
  }

  lemma SortingEnds(v: Slots, w: Slots, i: nat)
    requires Sorting(v, w, i) && w.keyCount <= i + 1
    ensures Reordered(v, w) && Ordered(w)
  {
  }

  lemma BubblingStarts(v: Slots, i: nat)
    requires Full(v) && i < v.keyCount <= 3
    ensures Bubbled(v, v, i, v.keyCount - 1)
  {
  }

  /** Two neighbours exchanged, when they are the wrong way round. */
  lemma BubblingStep(v: Slots, w: Slots, i: nat, j: nat)
    requires Bubbled(v, w, i, j) && i < j
    ensures Full(w)
    ensures var x := if Compare(w.keys[j - 1], w.keys[j]) == Greater then Exchanged(w, j) else w;
            Bubbled(v, x, i, j - 1)
  {
    ReorderedSizes(v, w);
    SwapKeys(w, j);
    var f, t, x := Vals(v), Vals(w), Exchanged(w, j);
    BubbledIs(v, w, i, j);
    hide *;
    Bubbling(f, t, i, j);
    if Compare(w.keys[j - 1], w.keys[j]) == Greater {
      BubbledBy(v, w, x, i, j - 1);
    } else {
      BubbledBy(v, w, w, i, j - 1);
    }
  }

  lemma BubbledIs(v: Slots, w: Slots, i: nat, j: nat)
    requires Bubbled(v, w, i, j) && Full(v) && Full(w) && v.keyCount == w.keyCount <= 3
    ensures Reordered(v, w) && i <= v.keyCount && Vals(w)[..i] == Vals(v)[..i] && j < w.keyCount
    ensures Least(Vals(w), j)
  {
  }

  lemma BubbledBy(v: Slots, w: Slots, x: Slots, i: nat, j: nat)
    requires Reordered(v, w) && Full(v) && Full(w) && Full(x) && v.keyCount == w.keyCount == x.keyCount <= 3
    requires x == w.(keys := x.keys) && x.keys[x.keyCount..] == w.keys[w.keyCount..] && multiset(Vals(x)) == multiset(Vals(w))
    requires i <= v.keyCount && Vals(x)[..i] == Vals(v)[..i] && j < x.keyCount
    requires Least(Vals(x), j)
    ensures Bubbled(v, x, i, j)
  {
    hide Vals;
  }

  lemma ReorderedSizes(v: Slots, w: Slots)
    requires Reordered(v, w)
    ensures Full(v) && Full(w) && v.keyCount == w.keyCount == |Vals(w)| == |Vals(v)| <= 3
  {
  }

  lemma Bubbling(f: seq<Key>, t: seq<Key>, i: nat, j: nat)
    requires i < j < |t| == |f| && t[..i] == f[..i] && Least(t, j)
    ensures var x := if t[j - 1] > t[j] then Swapped(t, j) else t;
            x[..i] == f[..i] && Least(x, j - 1)
  {
  }

  function Exchanged(w: Slots, j: nat): (x: Slots)
    requires Full(w) && 0 < j < w.keyCount <= 3
    ensures x.keyCount == w.keyCount && Full(x) && x == w.(keys := x.keys)
  {
    w.(keys := w.keys[j := w.keys[j - 1]][j - 1 := w.keys[j]])
  }

  lemma SwapKeys(w: Slots, j: nat)
    requires Full(w) && 0 < j < w.keyCount <= 3
    ensures Compare(w.keys[j - 1], w.keys[j]) == Greater <==> Vals(w)[j - 1] > Vals(w)[j]
    ensures Vals(Exchanged(w, j)) == Swapped(Vals(w), j)
    ensures Exchanged(w, j).keys[w.keyCount..] == w.keys[w.keyCount..]
  {
    CompareIsNumeric(w.keys[j - 1], w.keys[j]);
    var s := w.keys[..w.keyCount];
    hide RawKeys, Value, Compare;
    assert Exchanged(w, j).keys[..w.keyCount] == s[j := s[j - 1]][j - 1 := s[j]];
    RawKeysSwap(s, j, j - 1);
  }

  lemma RawKeysJoin(s: seq<RawKey>, t: seq<RawKey>)
    ensures RawKeys(s + t) == RawKeys(s) + RawKeys(t)
  {
    hide RawKeys;
    var a, b := RawKeys(s + t), RawKeys(s) + RawKeys(t);
    assert forall k | 0 <= k < |a| :: a[k] == b[k];
  }

  lemma RawKeysCut(s: seq<RawKey>, i: nat)
    requires i < |s|
    ensures RawKeys(RemoveAt(s, i)) == RemoveAt(RawKeys(s), i)
    ensures RawKeys(s[..|s| - 1]) == RawKeys(s)[..|s| - 1]
  {
    Halves(s, i);
    Halves(s, i + 1);
    Halves(s, |s| - 1);
    RawKeysJoin(s[..i], s[i + 1..]);
    hide RawKeys;
  }

  /** Both parts of a sequence, turned into numbers. */
  lemma Halves(s: seq<RawKey>, i: nat)
    requires i <= |s|
    ensures RawKeys(s[..i]) == RawKeys(s)[..i] && RawKeys(s[i..]) == RawKeys(s)[i..]
  {
    RawKeysFront(s, i);
    RawKeysBack(s, i);
    hide RawKeys;
  }

  lemma RawKeysFront(s: seq<RawKey>, i: nat)
    requires i <= |s|
    ensures RawKeys(s[..i]) == RawKeys(s)[..i]
  {
    hide RawKeys;
    var a, b := RawKeys(s[..i]), RawKeys(s)[..i];
    assert forall k | 0 <= k < i :: a[k] == b[k];
  }

  lemma RawKeysBack(s: seq<RawKey>, i: nat)
    requires i <= |s|
    ensures RawKeys(s[i..]) == RawKeys(s)[i..]
  {
    hide RawKeys;
    var a, b := RawKeys(s[i..]), RawKeys(s)[i..];
    assert forall k | 0 <= k < |s| - i :: a[k] == b[k];
  }

  lemma ValuesInsert(s: seq<Optr>, i: nat, x: Optr)
    requires i <= |s|
    ensures Values(InsertAt(s, i, x)) == InsertAt(Values(s), i, Value(x))
  {
    hide Values;
    var a, b := Values(InsertAt(s, i, x)), InsertAt(Values(s), i, Value(x));
    assert forall k | 0 <= k < |a| :: a[k] == b[k];
  }

  lemma RemoveTold(v: Slots, index: nat)
    requires InBounds(v) && v.keyCount == v.dataCount
    ensures var w := if v.keyCount == 0 then v else
                     v.(keys := ShiftedOut(v.keys, v.keyCount, index), keyCount := v.keyCount - 1,
                        data := ShiftedOut(v.data, v.dataCount, index), dataCount := v.dataCount - 1);
            && InBounds(w)
            && Told(w) == if index >= |Told(v).keys| then Told(v).(keys := ButLast(Told(v).keys), data := ButLast(Told(v).data))
                          else Told(v).(keys := RemoveAt(Told(v).keys, index), data := RemoveAt(Told(v).data, index))
  {
    var c: nat := v.keyCount;
    hide RawKeys, Values, Value, RemoveAt, ShiftedOut;
    if c > 0 {
      var i := if index < c then index else 0;
      RawKeysCut(v.keys[..c], i);
      if index < c {
        ShiftedOutIs(v.keys, c, index);
        ShiftedOutIs(v.data, c, index);
      } else {
        NothingBehind(v.keys, c, index);
        NothingBehind(v.data, c, index);
      }
      assert v.keys[..c][..c - 1] == v.keys[..c - 1] && v.data[..c][..c - 1] == v.data[..c - 1];
    }
  }

  lemma ShiftedOutIs<T>(s: seq<T>, count: nat, index: nat)
    requires index < count <= |s|
    ensures ShiftedOut(s, count, index)[..count - 1] == RemoveAt(s[..count], index)
  {
  }

  lemma ShiftedInIs<T>(s: seq<T>, count: nat, index: nat, x: T)
    requires index <= count < |s|
    ensures ShiftedIn(s, count, index, x)[..count + 1] == InsertAt(s[..count], index, x)
  {
  }
}
