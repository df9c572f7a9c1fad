/**
  The conversion table of a safe session.  A node is reached by the address it has in the normal
  file, by the address of its copy in the safe file, or, if the session made it, by its safe address;
  the table leads all of them to the record to use.  The flat store is what one would have without
  the overlay: one record per node, at the address that a plain copy of the normal file would use.
*/
module SafeTable {
  import opened Seqs
  import opened BTreeSpec
  import opened BTreeHeap
  import opened BTreeStep
  import opened IndexTree

  /** The file that the value behind a data pointer lies in. */
  datatype Home = AtNormal | AtSafe

  datatype Located = Located(ptr: Ptr, at: Home)

  /** A table entry: the record to use and the homes of its three data pointers. */
  datatype Mapping = Mapping(addr: Addr, at: seq<Home>)

  const ALL_NORMAL: seq<Home> := [AtNormal, AtNormal, AtNormal]

  const BLANK: Node<Located> := Node(NULL, [], [], [])

  /** Both files, the table, and for every record in the safe file the node it stands for. */
  datatype Overlay = Overlay(normal: Heap<Ptr>, safe: Heap<Ptr>, table: map<Addr, Mapping>, origin: map<Addr, Addr>)

  ghost predicate Live(v: Overlay, x: Addr) { x in v.normal || x in v.origin }

  ghost function Id(origin: map<Addr, Addr>, x: Addr): Addr { if x in origin then origin[x] else x }

  ghost function Ids(origin: map<Addr, Addr>, s: seq<Addr>): (r: seq<Addr>)
    ensures |r| == |s|
  {
    seq(|s|, i requires 0 <= i < |s| => Id(origin, s[i]))
  }

  /** A record with the homes of its data pointers. */
  function Tag(n: Node<Ptr>, at: seq<Home>): Node<Located> {
    Node(n.parent, n.keys,
         seq(|n.data|, i requires 0 <= i < |n.data| => Located(n.data[i], if i < |at| then at[i] else AtNormal)),
         n.kids)
  }

  /** The record with the addresses of the flat store. */
  ghost function Lift<D>(origin: map<Addr, Addr>, n: Node<D>): Node<D> {
    n.(parent := Id(origin, n.parent), kids := Ids(origin, n.kids))
  }

  /** What reading through the table gives. */
  ghost function Item(v: Overlay, x: Addr): Node<Located> {
    if x in v.table then
      if v.table[x].addr in v.safe && v.table[x].addr in v.table
        then Tag(v.safe[v.table[x].addr], v.table[v.table[x].addr].at) else Node(NULL, [], [], [])
    else if x in v.normal then Tag(v.normal[x], ALL_NORMAL) else Node(NULL, [], [], [])
  }

  /** The addresses in a record lead somewhere. */
  ghost predicate Sound<D>(v: Overlay, n: Node<D>) {
    && (n.parent == NULL || Live(v, n.parent))
    && (forall x | x in n.kids :: Live(v, x))
  }

  /** The shape of the table: safe addresses map to themselves, copied normal ones to their copy. */
  ghost predicate TableShape(v: Overlay) {
    && (forall x | x in v.table && x in v.origin :: v.table[x].addr == x && |v.table[x].at| == MAX_KEYS)
    && (forall x | x in v.table && x !in v.origin ::
          x in v.normal && v.table[x].addr in v.origin && v.origin[v.table[x].addr] == x)
    && (forall b | b in v.origin :: b in v.table && b in v.safe && b !in v.normal && b != NULL)
    && NULL !in v.normal
  }

  /** The nodes that safe records stand for: copied nodes of the normal file, or new ones. */
  ghost predicate Named(v: Overlay) {
    forall b | b in v.origin ::
      v.origin[b] !in v.origin && v.origin[b] != NULL && (v.origin[b] in v.normal ==> v.origin[b] in v.table)
  }

  /** No node has two safe records. */
  ghost predicate Injective(origin: map<Addr, Addr>) {
    forall b, c | b in origin && c in origin && origin[b] == origin[c] :: b == c
  }

  ghost predicate Mapped(v: Overlay) { TableShape(v) && Named(v) && Injective(v.origin) }

  /** Reading through the table is reading the flat store. */
  ghost predicate Reflects(v: Overlay, flat: Heap<Located>) {
    forall x | Live(v, x) ::
      Sound(v, Item(v, x)) && Id(v.origin, x) in flat && flat[Id(v.origin, x)] == Lift(v.origin, Item(v, x))
  }

  ghost predicate Mirrors(v: Overlay, flat: Heap<Located>) { Mapped(v) && Reflects(v, flat) }

  /** A node is the node of a safe record exactly when the table leads there. */
  lemma SameNode(v: Overlay, x: Addr, b: Addr)
    requires Mapped(v) && Live(v, x) && b in v.origin
    ensures Id(v.origin, x) == v.origin[b] <==> x in v.table && v.table[x].addr == b
  {
  }

  // ---------------------------------------------------------------- writing a record

  /** The safe record b and its homes overwritten. */
  ghost function Written(v: Overlay, b: Addr, n: Node<Ptr>, at: seq<Home>): Overlay {
    v.(safe := v.safe[b := n], table := v.table[b := Mapping(b, at)])
  }

  lemma WriteItem(v: Overlay, b: Addr, n: Node<Ptr>, at: seq<Home>, x: Addr)
    requires Mapped(v) && b in v.origin && Live(v, x)
    ensures Item(Written(v, b, n, at), x) == if Id(v.origin, x) == v.origin[b] then Tag(n, at) else Item(v, x)
  {
    SameNode(v, x, b);
  }

  lemma WriteMirrors(v: Overlay, flat: Heap<Located>, b: Addr, n: Node<Ptr>, at: seq<Home>)
    requires Mirrors(v, flat) && b in v.origin && Sound(v, n) && |at| == MAX_KEYS
    ensures Mirrors(Written(v, b, n, at), flat[v.origin[b] := Lift(v.origin, Tag(n, at))])
  {
    var v', flat' := Written(v, b, n, at), flat[v.origin[b] := Lift(v.origin, Tag(n, at))];
    assert Mapped(v');
    TagSound(v', n, at);
    SameSound(v, v');
    hide Mapped, Lift, Tag, Item, Sound;
    forall x | Live(v', x)
      ensures Sound(v', Item(v', x)) && Id(v'.origin, x) in flat' && flat'[Id(v'.origin, x)] == Lift(v'.origin, Item(v', x))
    {
      WriteItem(v, b, n, at, x);
      assert Live(v, x);
    }
  }

  lemma SameSound(v: Overlay, v': Overlay)
    requires v'.normal == v.normal && v'.origin == v.origin
    ensures forall n: Node<Located> :: Sound(v, n) <==> Sound(v', n)
    ensures forall n: Node<Ptr> :: Sound(v, n) <==> Sound(v', n)
  {
  }

  lemma TagSound(v: Overlay, n: Node<Ptr>, at: seq<Home>)
    ensures Sound(v, Tag(n, at)) <==> Sound(v, n)
  {
  }

  // ---------------------------------------------------------------- copying and making a node

  /** The node a of the normal file copied to the unused safe address b. */
  ghost function Copied(v: Overlay, a: Addr, b: Addr): Overlay
    requires a in v.normal
  {
    v.(safe := v.safe[b := v.normal[a]],
       table := v.table[b := Mapping(b, ALL_NORMAL)][a := Mapping(b, ALL_NORMAL)],
       origin := v.origin[b := a])
  }

  /** A new safe record b, standing for the node id of the flat store. */
  ghost function Made(v: Overlay, b: Addr, id: Addr): Overlay {
    v.(safe := v.safe[b := Node(NULL, [], [], [])],
       table := v.table[b := Mapping(b, ALL_NORMAL)],
       origin := v.origin[b := id])
  }

  /** The names of nodes in use stay when an address that was not in use gets one. */
  lemma NewName(v: Overlay, b: Addr, id: Addr, n: Node<Located>)
    requires Sound(v, n) && !Live(v, b) && b != NULL
    ensures Lift(v.origin[b := id], n) == Lift(v.origin, n)
  {
    assert forall i | 0 <= i < |n.kids| :: n.kids[i] in n.kids;
    assert Ids(v.origin[b := id], n.kids) == Ids(v.origin, n.kids);
  }

  lemma CopyItem(v: Overlay, a: Addr, b: Addr, x: Addr)
    requires Mapped(v) && a in v.normal && a !in v.table && !Live(v, b) && b !in v.table && b !in v.safe
    requires Live(v, x) || x == b
    ensures Item(Copied(v, a, b), x) == if x == b then Item(v, a) else Item(v, x)
  {
  }

  /** Copying on write changes nothing in the flat store. */
  lemma CopyMirrors(v: Overlay, flat: Heap<Located>, a: Addr, b: Addr)
    requires Mirrors(v, flat) && a in v.normal && a !in v.table && !Live(v, b) && b !in v.table && b !in v.safe && b != NULL
    requires forall c | c in v.origin :: v.origin[c] != b
    ensures Mirrors(Copied(v, a, b), flat)
  {
    var v' := Copied(v, a, b);
    CopyMapped(v, a, b);
    assert forall x | Live(v, x) :: Live(v', x);
    hide Mapped, Lift, Tag, Item;
    forall x | Live(v', x)
      ensures Sound(v', Item(v', x)) && Id(v'.origin, x) in flat && flat[Id(v'.origin, x)] == Lift(v'.origin, Item(v', x))
    {
      CopyItem(v, a, b, x);
      var y := if x == b then a else x;
      assert Live(v, y);
      NewName(v, b, a, Item(v, y));
      OwnName(v, a);
    }
  }

  lemma OwnName(v: Overlay, a: Addr)
    requires Mapped(v) && a in v.normal
    ensures Id(v.origin, a) == a
  {
  }

  lemma CopyMapped(v: Overlay, a: Addr, b: Addr)
    requires Mapped(v) && a in v.normal && a !in v.table && !Live(v, b) && b !in v.table && b != NULL
    requires forall c | c in v.origin :: v.origin[c] != b
    ensures Mapped(Copied(v, a, b))
  {
    assert forall c | c in v.origin :: v.origin[c] != a;
    InjectiveMore(v.origin, b, a);
    hide Injective;
  }

  lemma MakeItem(v: Overlay, b: Addr, id: Addr, x: Addr)
    requires Mapped(v) && !Live(v, b) && b !in v.table && b !in v.safe && (Live(v, x) || x == b)
    ensures Item(Made(v, b, id), x) == if x == b then Node(NULL, [], [], []) else Item(v, x)
  {
  }

  /** Making a node adds one empty record to the flat store. */
  lemma MakeMirrors(v: Overlay, flat: Heap<Located>, b: Addr, id: Addr)
    requires Mirrors(v, flat) && !Live(v, b) && b !in v.table && b !in v.safe && b != NULL
    requires id !in flat && id != NULL && id != b && id !in v.normal && id !in v.origin
    requires forall c | c in v.origin :: v.origin[c] != b
    ensures Mirrors(Made(v, b, id), flat[id := Node(NULL, [], [], [])])
  {
    var v', flat' := Made(v, b, id), flat[id := Node(NULL, [], [], [])];
    NamesInFlat(v, flat);
    MakeMapped(v, b, id);
    assert forall x | Live(v, x) :: Live(v', x);
    hide Mapped, Item, Lift, Ids;
    forall x | Live(v', x)
      ensures Sound(v', Item(v', x)) && Id(v'.origin, x) in flat' && flat'[Id(v'.origin, x)] == Lift(v'.origin, Item(v', x))
    {
      MakeItem(v, b, id, x);
      if x != b {
        assert Live(v, x);
        NewName(v, b, id, Item(v, x));
      } else {
        LiftEmpty(v'.origin);
      }
    }
  }

  lemma LiftEmpty(origin: map<Addr, Addr>)
    requires NULL !in origin
    ensures Lift(origin, BLANK) == BLANK
  {
  }

  lemma NamesInFlat(v: Overlay, flat: Heap<Located>)
    requires Mirrors(v, flat)
    ensures forall c | c in v.origin :: v.origin[c] in flat
  {
    assert forall c | c in v.origin :: Live(v, c) && Id(v.origin, c) == v.origin[c];
  }

  lemma MakeMapped(v: Overlay, b: Addr, id: Addr)
    requires Mapped(v) && !Live(v, b) && b !in v.table && b != NULL
    requires id != NULL && id != b && id !in v.normal && id !in v.origin
    requires forall c | c in v.origin :: v.origin[c] != b && v.origin[c] != id
    ensures Mapped(Made(v, b, id))
  {
    InjectiveMore(v.origin, b, id);
    MakeNamed(v, b, id);
    hide Injective, Named;
  }

  lemma MakeNamed(v: Overlay, b: Addr, id: Addr)
    requires Named(v) && !Live(v, b) && b !in v.table
    requires id != NULL && id != b && id !in v.normal && id !in v.origin && forall c | c in v.origin :: v.origin[c] != b
    ensures Named(Made(v, b, id))
  {
  }

  lemma InjectiveMore(origin: map<Addr, Addr>, b: Addr, id: Addr)
    requires Injective(origin) && b !in origin && forall c | c in origin :: origin[c] != id
    ensures Injective(origin[b := id])
  {
  }

  // ---------------------------------------------------------------- the whole state

  /** The safe file starts with 100 bytes of meta data and half a node, so no node address occurs in both files. */
  const SAFE_FIRST: Addr := FIRST_NODE + NODE_SIZE / 2

  ghost predicate SafeGrid<D>(h: Heap<D>, next: Addr) {
    next % NODE_SIZE == SAFE_FIRST % NODE_SIZE && next > NULL
    && forall x | x in h :: x < next && x % NODE_SIZE == SAFE_FIRST % NODE_SIZE
  }

  /** The flat store is what the overlay shows; names are the next address of either store. */
  ghost predicate Consistent(v: Overlay, flat: Heap<Located>, safeNext: Addr, flatNext: Addr) {
    Mirrors(v, flat) && SafeGrid(v.safe, safeNext) && Allotted(flat, flatNext) && flatNext > NULL
  }

  /** Every address that led to a node still leads to it. */
  ghost predicate Keeps(v: Overlay, v': Overlay) {
    && v'.normal == v.normal
    && (NULL !in v.origin ==> NULL !in v'.origin)
    && (forall x | Live(v, x) :: Live(v', x) && Id(v'.origin, x) == Id(v.origin, x))
  }

  lemma KeepsThrough(v: Overlay, v': Overlay, v2: Overlay)
    requires Keeps(v, v') && Keeps(v', v2)
    ensures Keeps(v, v2)
  {
  }

  lemma FreshNames(v: Overlay, flat: Heap<Located>, safeNext: Addr, flatNext: Addr)
    requires Consistent(v, flat, safeNext, flatNext)
    ensures !Live(v, safeNext) && safeNext !in v.table && safeNext !in v.safe
    ensures flatNext !in flat && flatNext !in v.normal && flatNext !in v.origin && flatNext != safeNext
    ensures forall c | c in v.origin :: v.origin[c] != safeNext
  {
    NamesInFlat(v, flat);
    assert forall a | a in v.normal :: Live(v, a) && Id(v.origin, a) == a;
  }

  lemma CopyConsistent(v: Overlay, flat: Heap<Located>, safeNext: Addr, flatNext: Addr, a: Addr)
    requires Consistent(v, flat, safeNext, flatNext) && a in v.normal && a !in v.table
    ensures Consistent(Copied(v, a, safeNext), flat, safeNext + NODE_SIZE, flatNext) && Keeps(v, Copied(v, a, safeNext))
  {
    FreshNames(v, flat, safeNext, flatNext);
    CopyMirrors(v, flat, a, safeNext);
    CopyKeeps(v, a, safeNext);
    GridsMore(v.safe, flat, safeNext, flatNext, v.normal[a]);
    hide Mirrors, Live, Keeps, SafeGrid, Allotted;
  }

  lemma CopyKeeps(v: Overlay, a: Addr, b: Addr)
    requires a in v.normal && !Live(v, b) && b != NULL
    ensures Keeps(v, Copied(v, a, b))
  {
  }

  lemma MakeConsistent(v: Overlay, flat: Heap<Located>, safeNext: Addr, flatNext: Addr)
    requires Consistent(v, flat, safeNext, flatNext)
    ensures Consistent(Made(v, safeNext, flatNext), flat[flatNext := BLANK], safeNext + NODE_SIZE, flatNext + NODE_SIZE)
    ensures Keeps(v, Made(v, safeNext, flatNext))
  {
    FreshNames(v, flat, safeNext, flatNext);
    MakeMirrors(v, flat, safeNext, flatNext);
    MakeKeeps(v, safeNext, flatNext);
    GridsMore(v.safe, flat, safeNext, flatNext, Node(NULL, [], [], []));
    hide Mirrors, Live, Keeps, SafeGrid, Allotted;
  }

  lemma GridsMore(safe: Heap<Ptr>, flat: Heap<Located>, safeNext: Addr, flatNext: Addr, n: Node<Ptr>)
    requires SafeGrid(safe, safeNext) && Allotted(flat, flatNext)
    ensures SafeGrid(safe[safeNext := n], safeNext + NODE_SIZE)
    ensures Allotted(flat[flatNext := BLANK], flatNext + NODE_SIZE)
  {
  }

  lemma MakeKeeps(v: Overlay, b: Addr, id: Addr)
    requires !Live(v, b) && b != NULL
    ensures Keeps(v, Made(v, b, id))
  {
  }

  lemma WriteConsistent(v: Overlay, flat: Heap<Located>, safeNext: Addr, flatNext: Addr, b: Addr, n: Node<Ptr>, at: seq<Home>)
    requires Consistent(v, flat, safeNext, flatNext) && b in v.origin && Sound(v, n) && |at| == MAX_KEYS
    ensures Consistent(Written(v, b, n, at), flat[v.origin[b] := Lift(v.origin, Tag(n, at))], safeNext, flatNext)
    ensures Keeps(v, Written(v, b, n, at))
  {
    WriteMirrors(v, flat, b, n, at);
    NamesInFlat(v, flat);
  }

  // ---------------------------------------------------------------- addresses and what they stand for

  /** The address x leads to the node id of the flat store. */
  ghost predicate Leads(v: Overlay, x: Addr, id: Addr) { x != NULL && id != NULL && Live(v, x) && Id(v.origin, x) == id }

  ghost predicate Points(v: Overlay, x: Addr, id: Addr) { (x == NULL && id == NULL) || Leads(v, x, id) }

  ghost predicate AllPoint(v: Overlay, s: seq<Addr>, ids: seq<Addr>) {
    |s| == |ids| && forall i | 0 <= i < |s| :: Leads(v, s[i], ids[i])
  }

  /** The record raw, read through the table, is the flat record n. */
  ghost predicate Shows(v: Overlay, raw: Node<Located>, n: Node<Located>) {
    raw.keys == n.keys && raw.data == n.data && Points(v, raw.parent, n.parent) && AllPoint(v, raw.kids, n.kids)
  }

  /** The null address is no node's. */
  lemma NoNull(v: Overlay, flat: Heap<Located>)
    requires Mirrors(v, flat)
    ensures NULL !in v.origin
    ensures forall x | Live(v, x) :: Leads(v, x, Id(v.origin, x))
  {
  }

  /** A record that may be written shows exactly its lifted form. */
  lemma SoundShows(v: Overlay, flat: Heap<Located>, raw: Node<Located>)
    requires Mirrors(v, flat)
    ensures Sound(v, raw) ==> Shows(v, raw, Lift(v.origin, raw))
  {
    NoNull(v, flat);
    assert forall i | 0 <= i < |raw.kids| :: raw.kids[i] in raw.kids;
  }

  lemma ShowsSound(v: Overlay, flat: Heap<Located>, raw: Node<Located>, n: Node<Located>)
    requires Mirrors(v, flat) && Shows(v, raw, n)
    ensures Sound(v, raw) && Lift(v.origin, raw) == n
  {
    NoNull(v, flat);
  }

  lemma KeepsLeads(v: Overlay, v': Overlay, x: Addr, id: Addr)
    requires Keeps(v, v')
    ensures Leads(v, x, id) ==> Leads(v', x, id)
    ensures Points(v, x, id) ==> Points(v', x, id)
  {
  }

  lemma KeepsShows(v: Overlay, v': Overlay, raw: Node<Located>, n: Node<Located>)
    requires Keeps(v, v') && Shows(v, raw, n)
    ensures Shows(v', raw, n)
  {
  }

  lemma ShowsWiden(v: Overlay, raw: Node<Located>, n: Node<Located>, k: Key, d: Located, right: Addr, id: Addr)
    requires Shows(v, raw, n) && Points(v, right, id)
    ensures Shows(v, WidenNode(raw, k, d, right), WidenNode(n, k, d, id))
  {
  }

  lemma ShowsKid(v: Overlay, raw: Node<Located>, n: Node<Located>, c: Addr, cid: Addr)
    requires Shows(v, raw, n) && Leads(v, c, cid)
    ensures AllPoint(v, raw.kids + [c], n.kids + [cid])
  {
  }

  lemma LeadsPoints(v: Overlay, x: Addr, id: Addr)
    requires Leads(v, x, id)
    ensures Points(v, x, id)
  {
  }

  /** The two writes that hang one more child below a node. */
  ghost function Adopted(rest: Heap<Located>, id: Addr, node: Node<Located>, cid: Addr): Heap<Located>
    requires cid in rest
  {
    rest[cid := rest[cid].(parent := id)][id := node.(kids := node.kids + [cid])]
  }

  lemma AdoptWrites(rest: Heap<Located>, id: Addr, node: Node<Located>, cid: Addr, h0: Heap<Located>, h1: Heap<Located>, h2: Heap<Located>)
    requires cid in rest && cid != id && h0 == rest[id := node]
    requires h1 == h0[id := h0[id].(kids := node.kids + [cid])] && h2 == h1[cid := h1[cid].(parent := id)]
    ensures h2 == Adopted(rest, id, node, cid)
  {
  }

  /** After i children have been hung below the node id. */
  ghost function PartAdopted(f: Heap<Located>, id: Addr, node: Node<Located>, ids: seq<Addr>, i: nat): Heap<Located>
    requires i <= |ids|
  {
    Rehome(f, ids[..i], id)[id := node.(kids := ids[..i])]
  }

  lemma AdoptStep(f: Heap<Located>, id: Addr, node: Node<Located>, ids: seq<Addr>, i: nat)
    requires i < |ids| && ids[i] in f
    ensures Adopted(Rehome(f, ids[..i], id), id, node.(kids := ids[..i]), ids[i]) == PartAdopted(f, id, node, ids, i + 1)
  {
    assert ids[..i + 1] == ids[..i] + [ids[i]];
    RehomeOne(f, ids[..i], ids[i], id);
  }

  lemma AdoptEnds(f: Heap<Located>, id: Addr, ids: seq<Addr>)
    requires id in f && f[id].kids == [] && id !in ids
    ensures PartAdopted(f, id, f[id], ids, 0) == f
    ensures PartAdopted(f, id, f[id], ids, |ids|) == Rehome(f[id := f[id].(kids := ids)], ids, id)
  {
    RehomeNone(f, id);
    assert ids[..|ids|] == ids;
    RehomeUpdate(f, ids, id, id, f[id].(kids := ids));
  }

  lemma PartAdoptedIs(f: Heap<Located>, id: Addr, node: Node<Located>, ids: seq<Addr>, i: nat)
    requires i < |ids| && ids[i] in f
    ensures PartAdopted(f, id, node, ids, i) == Rehome(f, ids[..i], id)[id := node.(kids := ids[..i])]
    ensures ids[i] in Rehome(f, ids[..i], id)
  {
  }

  /** The writes of a split before the children are moved: the new node s, then the node id. */
  ghost function SplitWrites(f: Heap<Located>, s: Addr, id: Addr, w: Node<Located>): Heap<Located>
    requires id in f && |w.keys| >= 2 && |w.data| >= 2
  {
    f[s := Node(w.parent, w.keys[2..], w.data[2..], [])][id := f[id].(keys := w.keys[..1], data := w.data[..1])]
  }

  lemma SplitWritten(f: Heap<Located>, s: Addr, id: Addr, w: Node<Located>, f2: Heap<Located>, f3: Heap<Located>, f4: Heap<Located>)
    requires id in f && s !in f && |w.keys| >= 2 && |w.data| >= 2
    requires f2 == f[s := Node(NULL, w.keys[2..], w.data[2..], [])]
    requires f3 == f2[s := f2[s].(parent := w.parent)] && f4 == f3[id := f3[id].(keys := w.keys[..1], data := w.data[..1])]
    ensures f4 == SplitWrites(f, s, id, w)
  {
  }

  /** With the children moved the split is complete. */
  lemma SplitIsHalve(f: Heap<Located>, s: Addr, id: Addr, w: Node<Located>)
    requires id in f && s !in f && Splittable(f, id, w) && (w.kids == [] ==> f[id].kids == [])
    ensures w.kids == [] ==> SplitWrites(f, s, id, w) == Halve(f, id, w, s)
    ensures w.kids != [] ==>
              var g := SplitWrites(f, s, id, w);
              var g' := g[id := g[id].(kids := w.kids[..2])];
              s in g' && g'[s].kids == [] && s !in w.kids[2..] && Rehome(g'[s := g'[s].(kids := w.kids[2..])], w.kids[2..], s) == Halve(f, id, w, s)
  {
    var g := SplitWrites(f, s, id, w);
    if w.kids == [] {
      RehomeNone(g, s);
    } else {
      assert forall x | x in w.kids[2..] :: x in w.kids;
      assert g[id := g[id].(kids := w.kids[..2])][s := g[s].(kids := w.kids[2..])]
          == f[id := Node(w.parent, w.keys[..1], w.data[..1], w.kids[..2])][s := Node(w.parent, w.keys[2..], w.data[2..], w.kids[2..])];
    }
  }

  lemma ShowsParts(v: Overlay, raw: Node<Located>, n: Node<Located>, i: nat)
    requires Shows(v, raw, n) && i <= |raw.kids|
    ensures i <= |n.kids| && AllPoint(v, raw.kids[..i], n.kids[..i]) && AllPoint(v, raw.kids[i..], n.kids[i..])
    ensures Points(v, raw.parent, n.parent) && raw.keys == n.keys && raw.data == n.data
  {
  }

  lemma MadeLeads(v: Overlay, b: Addr, id: Addr)
    requires b != NULL && id != NULL
    ensures Leads(Made(v, b, id), b, id)
  {
  }

  /** Entry first, then the child right of it: together the widened record. */
  lemma AddWritten(f: Heap<Located>, id: Addr, at: nat, k: Key, d: Located, rid: Addr, f1: Heap<Located>, f2: Heap<Located>)
    requires id in f && at == KeyRank(f[id].keys, k)
    requires f1 == f[id := f[id].(keys := InsertAt(f[id].keys, at, k), data := InsertAt(f[id].data, at, d))]
    requires f2 == if rid == NULL then f1 else f1[id := f1[id].(kids := InsertAt(f1[id].kids, at + 1, rid))]
    ensures f2 == f[id := WidenNode(f[id], k, d, rid)]
  {
  }

  lemma FilledWritten(f: Heap<Located>, id: Addr, keys: seq<Key>, data: seq<Located>, f1: Heap<Located>, f2: Heap<Located>)
    requires f1 == f[id := BLANK] && f2 == f1[id := f1[id].(keys := keys, data := data)]
    ensures f2 == f[id := Node(NULL, keys, data, [])]
  {
  }

  lemma RootWritten(f: Heap<Located>, id: Addr, k: Key, d: Located, sid: Addr, rid: Addr, f1: Heap<Located>, f2: Heap<Located>)
    requires f1 == f[rid := Node(NULL, [k], [d], [])] && f2 == f1[rid := f1[rid].(kids := [id, sid])]
    ensures f2 == f[rid := Node(NULL, [k], [d], [id, sid])]
  {
  }

  /** The writes of a new root are a crown. */
  lemma CrownWritten(f: Heap<Located>, id: Addr, k: Key, d: Located, sid: Addr, rid: Addr,
                     f3: Heap<Located>, f4: Heap<Located>, f5: Heap<Located>, f6: Heap<Located>)
    requires id in f && sid in f && rid !in f
    requires f3 == f[rid := Node(NULL, [k], [d], [id, sid])]
    requires f4 == f3[id := f3[id].(parent := rid)] && f5 == f4[sid := f4[sid].(parent := rid)]
    requires f6 == f5[rid := f5[rid].(parent := NULL)]
    ensures f6 == Crown(f, id, k, d, sid, rid)
  {
  }

  lemma TwoPoint(v: Overlay, a: Addr, id: Addr, b: Addr, bid: Addr)
    requires Leads(v, a, id) && Leads(v, b, bid)
    ensures AllPoint(v, [a, b], [id, bid])
  {
  }
}
