/**
  The index tree of a safe session: the same additions as in normal mode, but every write goes to a
  copy in the safe file, found again through the conversion table.
*/
module SafeIndexTree {
  import opened Seqs
  import opened BTreeSpec
  import opened BTreeInsert
  import opened BTreeHeap
  import opened BTreeOrder
  import opened BTreeFind
  import opened BTreeStep
  import opened KeySort
  import opened IndexTree
  import opened SafeCommit
  import opened SafeSimulation
  import opened SafeStart
  import opened SafeTable

  class SafeOBtree {
    const normal: NodeFile
    const safe: NodeFile
    var table: map<Addr, Mapping>
    var root: Addr
    ghost var origin: map<Addr, Addr>
    ghost var flat: Heap<Located>
    ghost var flatNext: Addr
    ghost var base: set<Addr>
    ghost var tree: Tree<Located>
    ghost var height: nat
    ghost var added: set<Key>
    ghost var start: Tree<Ptr>
    ghost var startNext: Addr
    ghost var log: seq<Entry<Ptr>>

    ghost function View(): Overlay
      reads `table, `origin, `base, normal, safe
    {
      Overlay(Part(normal.mem, base), safe.mem, table, origin)
    }

    ghost predicate Ok()
      reads `table, `origin, `base, `flat, `flatNext, normal, safe
    {
      normal != safe && Consistent(View(), flat, safe.next, flatNext)
    }

    /** The store shows a well-formed tree. */
    ghost predicate Shown()
      reads this, normal, safe
    {
      && Ok() && Leads(View(), root, tree.addr)
      && WellFormed(tree, height) && Stored(flat, tree, NULL) && Distinct(tree) && InUse(Cells(tree), flatNext)
    }

    /** The tree shown is what the additions of the session make of the tree it was opened on. */
    ghost predicate History()
      reads this
    {
      && (tree, flatNext) == SafeRun(TagTree(start), startNext, log) && base == Cells(start)
      && EraseEntries(List(tree)) == InsertAll(List(start), log) && Provenance(List(tree), added)
    }

    ghost predicate Valid()
      reads this, normal, safe
    {
      Shown() && History()
    }

    /** Opens a session on the normal tree: an empty table, a formatted safe file. */
    constructor (master: OBtree)
      requires master.Valid()
      ensures Valid() && fresh(safe) && normal == master.file
      ensures start == master.tree && startNext == normal.next && log == [] && added == {} && height == master.height
      ensures root == master.root && table == map[] && origin == map[]
    {
      normal, root, table := master.file, master.root, map[];
      safe := new NodeFile(SAFE_FIRST);
      origin, base, tree, height := map[], Cells(master.tree), TagTree(master.tree), master.height;
      flat, flatNext, added := TagAll(Part(master.file.mem, Cells(master.tree))), master.file.next, {};
      start, startNext, log := master.tree, master.file.next, [];
      new;
      StartConsistent(normal.mem, normal.next, master.tree, master.height);
      TagCells(master.tree);
      TagWellFormed(master.tree, master.height);
      TagList(master.tree);
      assert EraseEntries(TagEntries(List(master.tree))) == List(master.tree);
      assert View() == Untouching(normal.mem, master.tree);
    }

    // -------------------------------------------------------------- nodes through the table

    /** The address that the record for x lies at. */
    method Resolve(x: Addr, ghost id: Addr) returns (r: Addr)
      requires Ok() && Leads(View(), x, id)
      ensures Leads(View(), r, id)
    {
      NoNull(View(), flat);
      r := if x in table then table[x].addr else x;
    }

    /** citemSet: the record that x leads to, each data pointer with its home. */
    method Read(x: Addr, ghost id: Addr) returns (n: Node<Located>)
      requires Ok() && Leads(View(), x, id)
      ensures id in flat && Shows(View(), n, flat[id])
    {
      if x in table {
        var b := table[x].addr;
        n := Tag(safe.mem[b], table[b].at);
      } else {
        n := Tag(normal.mem[x], ALL_NORMAL);
      }
      SoundShows(View(), flat, n);
    }

    /** itemSet: the safe record to write for x, copied from the normal file on the first write. */
    method ItemSet(x: Addr, ghost id: Addr) returns (b: Addr)
      requires Ok() && Leads(View(), x, id)
      modifies this`table, this`origin, safe
      ensures Ok() && Keeps(old(View()), View()) && Writable(View(), flat, b, id)
    {
      NameInFlat(View(), flat, x);
      if x !in table {
        b := CopyNode(x);
      } else {
        b := table[x].addr;
      }
      IsWritable(View(), flat, safe.next, flatNext, b);
    }

    /** The first write to a node of the normal file: a copy, and the table entries for both addresses. */
    method CopyNode(x: Addr) returns (b: Addr)
      requires Ok() && Live(View(), x) && x !in table
      modifies this`table, this`origin, safe
      ensures Ok() && Keeps(old(View()), View()) && b in origin && origin[b] == x == Id(old(origin), x)
    {
      ghost var v := View();
      CopyConsistent(v, flat, safe.next, flatNext, x);
      FreshNames(v, flat, safe.next, flatNext);
      assert x == Id(origin, x) && x in normal.mem && v.normal[x] == normal.mem[x];
      ghost var v2 := Copied(v, x, safe.next);
      assert v2 == Overlay(v.normal, v.safe[safe.next := v.normal[x]], v2.table, v.origin[safe.next := x]);
      assert v2.table == table[safe.next := Mapping(safe.next, ALL_NORMAL)][x := Mapping(safe.next, ALL_NORMAL)];
      hide Consistent, Keeps, Part, Live, Id, Copied, Mirrors;
      b := safe.Duplicate(normal.mem[x]);
      table := table[b := Mapping(b, ALL_NORMAL)][x := Mapping(b, ALL_NORMAL)];
      origin := origin[b := x];
      assert View() == v2;
    }

    /** Overwrites a safe record and the homes of its pointers. */
    method Write(b: Addr, n: Node<Ptr>, at: seq<Home>, ghost id: Addr, ghost node: Node<Located>)
      requires Ok() && Writable(View(), flat, b, id) && |at| == MAX_KEYS && Shows(View(), Tag(n, at), node)
      modifies this`table, this`flat, safe`mem
      ensures Ok() && Keeps(old(View()), View()) && flat == old(flat)[id := node]
    {
      ghost var v := View();
      ShowsSound(v, flat, Tag(n, at), node);
      TagSound(v, n, at);
      WriteConsistent(v, flat, safe.next, flatNext, b, n, at);
      hide Consistent, Keeps;
      safe.mem := safe.mem[b := n];
      table := table[b := Mapping(b, at)];
      flat := flat[id := node];
      assert View() == Written(v, b, n, at);
    }

    method SetKeys(x: Addr, keys: seq<Key>, ghost id: Addr)
      requires Ok() && Leads(View(), x, id)
      modifies this`table, this`origin, this`flat, safe
      ensures Ok() && Keeps(old(View()), View()) && id in old(flat) && flat == old(flat)[id := old(flat)[id].(keys := keys)]
    {
      ghost var v := View();
      NameInFlat(v, flat, x);
      hide Ok, Consistent, Keeps, Leads;
      var b := ItemSet(x, id);
      ghost var v' := View();
      Write(b, safe.mem[b].(keys := keys), table[b].at, id, flat[id].(keys := keys));
      KeepsThrough(v, v', View());
    }

    /** Writes the data pointers, and their homes into the table. */
    method SetData(x: Addr, data: seq<Located>, ghost id: Addr)
      requires Ok() && Leads(View(), x, id) && |data| <= MAX_KEYS
      modifies this`table, this`origin, this`flat, safe
      ensures Ok() && Keeps(old(View()), View()) && id in old(flat) && flat == old(flat)[id := old(flat)[id].(data := data)]
    {
      ghost var v := View();
      NameInFlat(v, flat, x);
      hide Ok, Consistent, Keeps, Leads;
      var b := ItemSet(x, id);
      ghost var v' := View();
      var n, at := safe.mem[b].(data := []), table[b].at;
      var i := 0;
      while i < |data|
        invariant 0 <= i <= |data| && |at| == MAX_KEYS && |n.data| == i
        invariant n.parent == safe.mem[b].parent && n.keys == safe.mem[b].keys && n.kids == safe.mem[b].kids
        invariant forall j | 0 <= j < i :: n.data[j] == data[j].ptr && at[j] == data[j].at
      {
        n, at := n.(data := n.data + [data[i].ptr]), at[i := data[i].at];
        i := i + 1;
      }
      assert Tag(n, at).data == data;
      Write(b, n, at, id, flat[id].(data := data));
      KeepsThrough(v, v', View());
    }

    method SetKids(x: Addr, kids: seq<Addr>, ghost id: Addr, ghost ids: seq<Addr>)
      requires Ok() && Leads(View(), x, id) && AllPoint(View(), kids, ids)
      modifies this`table, this`origin, this`flat, safe
      ensures Ok() && Keeps(old(View()), View()) && id in old(flat) && flat == old(flat)[id := old(flat)[id].(kids := ids)]
    {
      ghost var v := View();
      NameInFlat(v, flat, x);
      hide Ok, Consistent, Keeps, Leads, AllPoint;
      var b := ItemSet(x, id);
      ghost var v' := View();
      KeepsAll(v, v', kids, ids);
      Write(b, safe.mem[b].(kids := kids), table[b].at, id, flat[id].(kids := ids));
      KeepsThrough(v, v', View());
    }

    method SetParent(x: Addr, parent: Addr, ghost id: Addr, ghost pid: Addr)
      requires Ok() && Leads(View(), x, id) && Points(View(), parent, pid)
      modifies this`table, this`origin, this`flat, safe
      ensures Ok() && Keeps(old(View()), View()) && id in old(flat) && flat == old(flat)[id := old(flat)[id].(parent := pid)]
    {
      ghost var v := View();
      NameInFlat(v, flat, x);
      hide Ok, Consistent, Keeps, Leads, Points;
      var b := ItemSet(x, id);
      ghost var v' := View();
      KeepsLeads(v, v', parent, pid);
      Write(b, safe.mem[b].(parent := parent), table[b].at, id, flat[id].(parent := pid));
      KeepsThrough(v, v', View());
    }

    /** A new node of the session, empty. */
    method NewNode() returns (s: Addr)
      requires Ok()
      modifies this`table, this`origin, this`flat, this`flatNext, safe
      ensures Ok() && Keeps(old(View()), View()) && Leads(View(), s, old(flatNext))
      ensures old(flatNext) !in old(flat) && flatNext == old(flatNext) + NODE_SIZE && flat == old(flat)[old(flatNext) := BLANK]
    {
      ghost var v := View();
      FreshNames(v, flat, safe.next, flatNext);
      MakeConsistent(v, flat, safe.next, flatNext);
      MadeLeads(v, safe.next, flatNext);
      ghost var v2 := Made(v, safe.next, flatNext);
      assert v2 == Overlay(v.normal, v.safe[safe.next := Node(NULL, [], [], [])], v2.table, v.origin[safe.next := flatNext]);
      assert v2.table == table[safe.next := Mapping(safe.next, ALL_NORMAL)];
      hide Consistent, Keeps, Part, Leads, Made, Mirrors;
      s := safe.Allocate();
      table := table[s := Mapping(s, ALL_NORMAL)];
      origin, flat, flatNext := origin[s := flatNext], flat[flatNext := BLANK], flatNext + NODE_SIZE;
      assert View() == v2;
    }

    // -------------------------------------------------------------- additions

    /** Adds k, d and the child right of it to the node a, which has room. */
    method SimpleAdd(a: Addr, k: Key, d: Located, right: Addr, ghost id: Addr, ghost rid: Addr)
      requires Ok() && Leads(View(), a, id) && Points(View(), right, rid)
      requires id in flat && Ascending(flat[id].keys) && k !in flat[id].keys && |flat[id].data| == |flat[id].keys| < MAX_KEYS
      requires right != NULL ==> |flat[id].kids| == |flat[id].keys| + 1
      modifies this`table, this`origin, this`flat, safe
      ensures Ok() && Keeps(old(View()), View())
      ensures flat == old(flat)[id := WidenNode(old(flat)[id], k, d, rid)]
    {
      ghost var v, f := View(), flat;
      assert right == NULL <==> rid == NULL;
      assert right != NULL ==> Leads(v, right, rid);
      hide *;
      var at := AddEntry(a, k, d, id);
      ghost var v1, f1 := View(), flat;
      if right != NULL {
        KeepsLeads(v, v1, a, id);
        KeepsLeads(v, v1, right, rid);
        InsertChild(a, at + 1, right, id, rid);
        KeepsThrough(v, v1, View());
      }
      AddWritten(f, id, at, k, d, rid, f1, flat);
    }

    /** The key is placed by sorting, the data pointer by shifting, each with its home. */
    method AddEntry(a: Addr, k: Key, d: Located, ghost id: Addr) returns (at: nat)
      requires Ok() && Leads(View(), a, id)
      requires id in flat && Ascending(flat[id].keys) && k !in flat[id].keys && |flat[id].data| == |flat[id].keys| < MAX_KEYS
      modifies this`table, this`origin, this`flat, safe
      ensures Ok() && Keeps(old(View()), View()) && at == KeyRank(old(flat)[id].keys, k)
      ensures flat == old(flat)[id := old(flat)[id].(keys := InsertAt(old(flat)[id].keys, at, k),
                                                      data := InsertAt(old(flat)[id].data, at, d))]
    {
      ghost var v := View();
      hide Ok, Keeps, Ascending, Leads, AllPoint;
      var n := Read(a, id);
      var keys;
      keys, at := PlaceKey(n.keys, k);
      var data := MoveInsert(n.data, at, d);
      SetKeys(a, keys, id);
      ghost var v1 := View();
      KeepsLeads(v, v1, a, id);
      SetData(a, data, id);
      KeepsThrough(v, v1, View());
    }

    /** A child address goes in at i; what is written is the address its record lies at. */
    method InsertChild(a: Addr, i: nat, right: Addr, ghost id: Addr, ghost rid: Addr)
      requires Ok() && Leads(View(), a, id) && Leads(View(), right, rid)
      requires id in flat && i <= |flat[id].kids|
      modifies this`table, this`origin, this`flat, safe
      ensures Ok() && Keeps(old(View()), View())
      ensures flat == old(flat)[id := old(flat)[id].(kids := InsertAt(old(flat)[id].kids, i, rid))]
    {
      hide Ok, Keeps, Leads;
      var n := Read(a, id);
      var r := Resolve(right, rid);
      var kids := MoveInsert(n.kids, i, r);
      SetKids(a, kids, id, InsertAt(flat[id].kids, i, rid));
    }

    /** Hangs one more child below the node a. */
    method AdoptKid(a: Addr, c: Addr, ghost id: Addr, ghost cid: Addr, ghost v: Overlay, ghost node: Node<Located>, ghost rest: Heap<Located>)
      requires Ok() && Keeps(v, View()) && Leads(v, a, id) && Leads(v, c, cid)
      requires flat == rest[id := node] && cid in rest && cid != id
      modifies this`table, this`origin, this`flat, safe
      ensures Ok() && Keeps(v, View())
      ensures flat == Adopted(rest, id, node, cid)
    {
      ghost var v0, h0 := View(), flat;
      KeepsLeads(v, v0, a, id);
      KeepsLeads(v, v0, c, cid);
      hide *;
      var n := Read(a, id);
      ShowsKid(v0, n, node, c, cid);
      SetKids(a, n.kids + [c], id, node.kids + [cid]);
      ghost var v1, h1 := View(), flat;
      KeepsThrough(v, v0, v1);
      KeepsLeads(v, v1, a, id);
      KeepsLeads(v, v1, c, cid);
      LeadsPoints(v1, a, id);
      SetParent(c, a, cid, id);
      KeepsThrough(v, v1, View());
      AdoptWrites(rest, id, node, cid, h0, h1, flat);
    }

    /** Hangs the children below the node a, each with its new parent address. */
    method AdoptKids(a: Addr, kids: seq<Addr>, ghost id: Addr, ghost ids: seq<Addr>)
      requires Ok() && Leads(View(), a, id) && AllPoint(View(), kids, ids)
      requires id in flat && flat[id].kids == [] && id !in ids
      modifies this`table, this`origin, this`flat, safe
      ensures Ok() && Keeps(old(View()), View())
      ensures flat == Rehome(old(flat)[id := old(flat)[id].(kids := ids)], ids, id)
    {
      ghost var v, f, node := View(), flat, flat[id];
      KeepsSelf(v);
      PointsInFlat(v, flat, kids, ids);
      AdoptEnds(f, id, ids);
      hide *;
      var i := 0;
      while i < |kids|
        invariant 0 <= i <= |kids| && Ok() && Keeps(v, View())
        invariant flat == PartAdopted(f, id, node, ids, i)
      {
        AdoptStep(f, id, node, ids, i);
        PartAdoptedIs(f, id, node, ids, i);
        AdoptKid(a, kids[i], id, ids[i], v, node.(kids := ids[..i]), Rehome(f, ids[..i], id));
        i := i + 1;
      }
    }

    method SetEntries(a: Addr, keys: seq<Key>, data: seq<Located>, ghost id: Addr)
      requires Ok() && Leads(View(), a, id) && |data| <= MAX_KEYS
      modifies this`table, this`origin, this`flat, safe
      ensures Ok() && Keeps(old(View()), View()) && Leads(View(), a, id)
      ensures id in old(flat) && flat == old(flat)[id := old(flat)[id].(keys := keys, data := data)]
    {
      ghost var v := View();
      hide *;
      SetKeys(a, keys, id);
      ghost var v1 := View();
      KeepsLeads(v, v1, a, id);
      SetData(a, data, id);
      KeepsThrough(v, v1, View());
      KeepsLeads(v, View(), a, id);
    }

    /** A new node with entries, not yet linked. */
    method NewFilled(keys: seq<Key>, data: seq<Located>) returns (s: Addr)
      requires Ok() && |data| <= MAX_KEYS
      modifies this`table, this`origin, this`flat, this`flatNext, safe
      ensures Ok() && Keeps(old(View()), View()) && Leads(View(), s, old(flatNext)) && flatNext == old(flatNext) + NODE_SIZE
      ensures old(flatNext) !in old(flat) && flat == old(flat)[old(flatNext) := Node(NULL, keys, data, [])]
    {
      ghost var v, f, id := View(), flat, flatNext;
      hide *;
      s := NewNode();
      ghost var v1, f1 := View(), flat;
      SetEntries(s, keys, data, id);
      KeepsThrough(v, v1, View());
      FilledWritten(f, id, keys, data, f1, flat);
    }

    /**
      Splits the node a, over-full as w: the last two entries and the last three children move to a
      new node, whose children get its address as their parent.
    */
    method SplitONode(a: Addr, w: Node<Located>, ghost id: Addr, ghost fw: Node<Located>) returns (split: Addr)
      requires Ok() && Leads(View(), a, id) && Shows(View(), w, fw)
      requires id in flat && Splittable(flat, id, fw) && (fw.kids == [] ==> flat[id].kids == [])
      modifies this`table, this`origin, this`flat, this`flatNext, safe
      ensures Ok() && Keeps(old(View()), View()) && Leads(View(), split, old(flatNext)) && flatNext == old(flatNext) + NODE_SIZE
      ensures flat == Halve(old(flat), id, fw, old(flatNext)) && id in flat && flat[id].parent == old(flat)[id].parent
    {
      ghost var v, f, s := View(), flat, flatNext;
      SplittableSize(v, f, id, w, fw);
      hide *;
      split := WriteHalves(a, w, id, fw);
      ghost var v1 := View();
      KeepsShows(v, v1, w, fw);
      SplitIsHalve(f, s, id, fw);
      HalveParent(f, id, fw, s);
      if |w.kids| > 0 {
        ShowsParts(v1, w, fw, 2);
        SetKids(a, w.kids[..2], id, fw.kids[..2]);
        ghost var v2 := View();
        KeepsLeads(v1, v2, split, s);
        KeepsAll(v1, v2, w.kids[2..], fw.kids[2..]);
        KeepsThrough(v, v1, v2);
        AdoptKids(split, w.kids[2..], s, fw.kids[2..]);
        KeepsThrough(v, v2, View());
        KeepsLeads(v2, View(), split, s);
      }
    }

    /** Keys and data pointers of both halves. */
    method WriteHalves(a: Addr, w: Node<Located>, ghost id: Addr, ghost fw: Node<Located>) returns (split: Addr)
      requires Ok() && Leads(View(), a, id) && Points(View(), w.parent, fw.parent) && w.keys == fw.keys && w.data == fw.data
      requires |w.keys| == |w.data| == MAX_KEYS + 1 && id in flat
      modifies this`table, this`origin, this`flat, this`flatNext, safe
      ensures Ok() && Keeps(old(View()), View()) && Leads(View(), split, old(flatNext)) && Leads(View(), a, id)
      ensures old(flatNext) !in old(flat) && flatNext == old(flatNext) + NODE_SIZE
      ensures flat == SplitWrites(old(flat), old(flatNext), id, fw)
    {
      ghost var v, f, s := View(), flat, flatNext;
      assert |w.keys| == |w.data| == 4 && 2 <= MAX_KEYS;
      hide *;
      split := NewFilled(w.keys[2..], w.data[2..]);
      ghost var v2, f2 := View(), flat;
      KeepsLeads(v, v2, w.parent, fw.parent);
      SetParent(split, w.parent, s, fw.parent);
      ghost var v3, f3 := View(), flat;
      KeepsThrough(v, v2, v3);
      KeepsLeads(v, v3, a, id);
      KeepsLeads(v2, v3, split, s);
      SetEntries(a, w.keys[..1], w.data[..1], id);
      KeepsThrough(v, v3, View());
      KeepsLeads(v3, View(), split, s);
      SplitWritten(f, s, id, fw, f2, f3, flat);
    }

    /** A new root above the halves a and split. */
    method GrowRoot(a: Addr, k: Key, d: Located, split: Addr, ghost id: Addr, ghost sid: Addr) returns (newRoot: Addr)
      requires Ok() && Leads(View(), a, id) && Leads(View(), split, sid) && id in flat && sid in flat
      modifies this`table, this`origin, this`flat, this`flatNext, safe
      ensures Ok() && Keeps(old(View()), View()) && Leads(View(), newRoot, old(flatNext)) && flatNext == old(flatNext) + NODE_SIZE
      ensures flat == Crown(old(flat), id, k, d, sid, old(flatNext))
    {
      ghost var v, f, rid := View(), flat, flatNext;
      hide *;
      newRoot := MakeRoot(a, k, d, split, id, sid);
      ghost var f3 := flat;
      ghost var f4, f5 := SetRoot(a, split, newRoot, id, sid, rid, v);
      CrownWritten(f, id, k, d, sid, rid, f3, f4, f5, flat);
    }

    /** The children of a new root; what is written is where their records lie. */
    method SetTwoKids(x: Addr, a: Addr, b: Addr, ghost id: Addr, ghost aid: Addr, ghost bid: Addr)
      requires Ok() && Leads(View(), x, id) && Leads(View(), a, aid) && Leads(View(), b, bid)
      modifies this`table, this`origin, this`flat, safe
      ensures Ok() && Keeps(old(View()), View()) && id in old(flat) && flat == old(flat)[id := old(flat)[id].(kids := [aid, bid])]
    {
      ghost var v := View();
      hide *;
      var left := Resolve(a, aid);
      var right := Resolve(b, bid);
      TwoPoint(v, left, aid, right, bid);
      SetKids(x, [left, right], id, [aid, bid]);
    }

    /** The record of a new root over the nodes a and split. */
    method MakeRoot(a: Addr, k: Key, d: Located, split: Addr, ghost id: Addr, ghost sid: Addr) returns (newRoot: Addr)
      requires Ok() && Leads(View(), a, id) && Leads(View(), split, sid)
      modifies this`table, this`origin, this`flat, this`flatNext, safe
      ensures Ok() && Keeps(old(View()), View()) && Leads(View(), newRoot, old(flatNext)) && flatNext == old(flatNext) + NODE_SIZE
      ensures old(flatNext) !in old(flat) && flat == old(flat)[old(flatNext) := Node(NULL, [k], [d], [id, sid])]
    {
      ghost var v, f, rid := View(), flat, flatNext;
      assert 1 <= MAX_KEYS;
      hide *;
      newRoot := NewFilled([k], [d]);
      ghost var v1, f1 := View(), flat;
      KeepsLeads(v, v1, a, id);
      KeepsLeads(v, v1, split, sid);
      SetTwoKids(newRoot, a, split, rid, id, sid);
      KeepsThrough(v, v1, View());
      KeepsLeads(v1, View(), newRoot, rid);
      RootWritten(f, id, k, d, sid, rid, f1, flat);
    }

    /** Both halves get the new root as their parent, the root has none. */
    method SetRoot(a: Addr, split: Addr, newRoot: Addr, ghost id: Addr, ghost sid: Addr, ghost rid: Addr, ghost v: Overlay)
      returns (ghost f1: Heap<Located>, ghost f2: Heap<Located>)
      requires Ok() && Keeps(v, View()) && Leads(v, a, id) && Leads(v, split, sid) && Leads(View(), newRoot, rid)
      modifies this`table, this`origin, this`flat, safe
      ensures Ok() && Keeps(v, View()) && Leads(View(), newRoot, rid)
      ensures id in old(flat) && f1 == old(flat)[id := old(flat)[id].(parent := rid)]
      ensures sid in f1 && f2 == f1[sid := f1[sid].(parent := rid)]
      ensures rid in f2 && flat == f2[rid := f2[rid].(parent := NULL)]
    {
      ghost var v0 := View();
      assert Points(v0, NULL, NULL);
      hide *;
      KeepsLeads(v, v0, a, id);
      KeepsLeads(v0, v0, newRoot, rid) by { KeepsSelf(v0); }
      LeadsPoints(v0, newRoot, rid);
      SetParent(a, newRoot, id, rid);
      ghost var v1 := View();
      f1 := flat;
      KeepsThrough(v, v0, v1);
      KeepsLeads(v, v1, split, sid);
      KeepsLeads(v0, v1, newRoot, rid);
      KeepsLeads(v0, v1, NULL, NULL);
      SetParent(split, newRoot, sid, rid);
      ghost var v2 := View();
      f2 := flat;
      KeepsThrough(v, v1, v2);
      KeepsLeads(v1, v2, newRoot, rid);
      KeepsLeads(v1, v2, NULL, NULL);
      SetParent(newRoot, NULL, rid, NULL);
      KeepsThrough(v, v2, View());
      KeepsLeads(v2, View(), newRoot, rid);
    }

    /**
      Adds k, d and the child right of it to the node a.  A full node is split and the middle entry
      goes to its parent; a split root gets a new root above it, which is returned.
    */
    method RecursiveAdd(a: Addr, k: Key, d: Located, right: Addr,
                        ghost t: Tree<Located>, ghost h: nat, ghost path: Path, ghost r: Option<Tree<Located>>, ghost goal: Grown<Located>)
      returns (newRoot: Addr)
      requires Ok() && Ready(flat, flatNext, t, h, path, k, r)
      requires Leads(View(), a, Get(t, path).addr) && Points(View(), right, RightAddr(r))
      requires goal == InsertPath(t, path, Entry(k, d), r, flatNext)
      modifies this`table, this`origin, this`flat, this`flatNext, safe
      ensures Ok() && Keeps(old(View()), View()) && Points(View(), newRoot, RootAfter(goal))
      ensures Done(old(flat), flat, flatNext, t, r, Regrow(goal))
      decreases |path|, 1
    {
      ghost var v, f, id := View(), flat, Get(t, path).addr;
      PathSplittable(f, flatNext, t, h, path, k, r);
      var n := Read(a, id);
      if |n.keys| >= MAX_KEYS {
        newRoot := SplitAndClimb(a, k, d, right, t, h, path, r, goal);
      } else {
        FitStep(f, flatNext, t, h, path, Entry(k, d), r);
        assert right != NULL <==> r.Some?;
        SimpleAdd(a, k, d, right, id, RightAddr(r));
        newRoot := NULL;
      }
    }

    method SplitAndClimb(a: Addr, k: Key, d: Located, right: Addr,
                         ghost t: Tree<Located>, ghost h: nat, ghost path: Path, ghost r: Option<Tree<Located>>, ghost goal: Grown<Located>)
      returns (newRoot: Addr)
      requires Ok() && Ready(flat, flatNext, t, h, path, k, r) && |Get(t, path).entries| == MAX_KEYS
      requires Leads(View(), a, Get(t, path).addr) && Points(View(), right, RightAddr(r))
      requires goal == InsertPath(t, path, Entry(k, d), r, flatNext)
      modifies this`table, this`origin, this`flat, this`flatNext, safe
      ensures Ok() && Keeps(old(View()), View()) && Points(View(), newRoot, RootAfter(goal))
      ensures Done(old(flat), flat, flatNext, t, r, Regrow(goal))
      decreases |path|, 0
    {
      ghost var v, f, n0, e := View(), flat, flatNext, Entry(k, d);
      assert path != [] ==> |Up(path)| < |path|;
      hide *;
      var midKey, midData, split, parent := Split(a, k, d, right, t, h, path, r);
      ghost var v1 := View();
      if parent == NULL {
        newRoot := SplitRoot(a, midKey, midData, split, f, n0, t, h, e, r, goal);
      } else {
        newRoot := Climb(parent, midKey, midData, split, f, n0, t, h, path, e, r, goal);
      }
      KeepsThrough(v, v1, View());
    }

    /** The root has been split in the store f. */
    method SplitRoot(a: Addr, k: Key, d: Located, split: Addr, ghost f: Heap<Located>, ghost next: Addr,
                     ghost t: Tree<Located>, ghost h: nat, ghost e: Entry<Located>, ghost r: Option<Tree<Located>>, ghost goal: Grown<Located>)
      returns (newRoot: Addr)
      requires Ok() && Ready(f, next, t, h, [], e.key, r) && |Get(t, []).entries| == MAX_KEYS && flatNext == next + NODE_SIZE
      requires Halved(f, next, t, [], e, r, flat) && IsMid(f, t, [], e, r, Entry(k, d))
      requires Leads(View(), a, Get(t, []).addr) && Leads(View(), split, next) && goal == InsertPath(t, [], e, r, next)
      modifies this`table, this`origin, this`flat, this`flatNext, safe
      ensures Ok() && Keeps(old(View()), View()) && Points(View(), newRoot, RootAfter(goal))
      ensures Done(f, flat, flatNext, t, r, Regrow(goal))
    {
      GetRoot(t);
      RootAfterOf(goal);
      hide *;
      AfterRootSplit(f, next, t, h, e, r, flat, Entry(k, d));
      newRoot := GrowRoot(a, k, d, split, t.addr, next);
      LeadsPoints(View(), newRoot, next + NODE_SIZE);
    }

    /** An inner node has been split in the store f: its parent takes the middle entry. */
    method Climb(parent: Addr, k: Key, d: Located, split: Addr, ghost f: Heap<Located>, ghost next: Addr,
                 ghost t: Tree<Located>, ghost h: nat, ghost path: Path, ghost e: Entry<Located>, ghost r: Option<Tree<Located>>, ghost goal: Grown<Located>)
      returns (newRoot: Addr)
      requires Ok() && Ready(f, next, t, h, path, e.key, r) && |Get(t, path).entries| == MAX_KEYS && flatNext == next + NODE_SIZE
      requires path != [] && Halved(f, next, t, path, e, r, flat) && IsMid(f, t, path, e, r, Entry(k, d))
      requires Leads(View(), parent, ParentAddr(t, path, NULL)) && Leads(View(), split, next) && goal == InsertPath(t, path, e, r, next)
      modifies this`table, this`origin, this`flat, this`flatNext, safe
      ensures Ok() && Keeps(old(View()), View()) && Points(View(), newRoot, RootAfter(goal))
      ensures Done(f, flat, flatNext, t, r, Regrow(goal))
      decreases |Up(path)|, 2
    {
      ghost var v1, f1 := View(), flat;
      hide *;
      ghost var t', r' := AfterInnerSplit(f, next, t, h, path, e, r, flat, Entry(k, d));
      LeadsPoints(v1, split, next);
      newRoot := RecursiveAdd(parent, k, d, split, t', h, Up(path), r', goal);
      DoneThrough(f, f1, flat, flatNext, t, r, t', r', Regrow(goal));
    }

    method Split(a: Addr, k: Key, d: Located, right: Addr,
                 ghost t: Tree<Located>, ghost h: nat, ghost path: Path, ghost r: Option<Tree<Located>>)
      returns (midKey: Key, midData: Located, split: Addr, parent: Addr)
      requires Ok() && Ready(flat, flatNext, t, h, path, k, r) && |Get(t, path).entries| == MAX_KEYS
      requires Leads(View(), a, Get(t, path).addr) && Points(View(), right, RightAddr(r))
      modifies this`table, this`origin, this`flat, this`flatNext, safe
      ensures Ok() && Keeps(old(View()), View()) && flatNext == old(flatNext) + NODE_SIZE
      ensures Leads(View(), split, old(flatNext)) && Leads(View(), a, Get(t, path).addr)
      ensures Halved(old(flat), old(flatNext), t, path, Entry(k, d), r, flat)
      ensures IsMid(old(flat), t, path, Entry(k, d), r, Entry(midKey, midData))
      ensures path == [] ==> parent == NULL
      ensures path != [] ==> parent != NULL && Leads(View(), parent, ParentAddr(t, path, NULL))
    {
      ghost var v, f, n0, id := View(), flat, flatNext, Get(t, path).addr;
      ghost var fw, pid := WidenNode(f[id], k, d, RightAddr(r)), ParentAddr(t, path, NULL);
      PathSplittable(f, n0, t, h, path, k, r);
      WidenedIs(f, t, path, k, d, r);
      var w := ViewOf(a, k, d, right, id, RightAddr(r));
      hide *;
      split := SplitONode(a, w, id, fw);
      KeepsLeads(v, View(), a, id);
      midKey, midData := w.keys[1], w.data[1];
      IsHalved(f, n0, t, path, Entry(k, d), r, flat, Entry(midKey, midData));
      var left := Read(a, id);
      parent := left.parent;
      ShowsParent(View(), left, flat[id]);
    }

    /** The virtual item set of the node a. */
    method ViewOf(a: Addr, k: Key, d: Located, right: Addr, ghost id: Addr, ghost rid: Addr) returns (w: Node<Located>)
      requires Ok() && Leads(View(), a, id) && Points(View(), right, rid)
      requires id in flat && Ascending(flat[id].keys) && k !in flat[id].keys && |flat[id].data| == |flat[id].keys|
      requires rid != NULL ==> |flat[id].kids| == |flat[id].keys| + 1
      ensures Shows(View(), w, WidenNode(flat[id], k, d, rid))
      ensures w.keys == WidenNode(flat[id], k, d, rid).keys && w.data == WidenNode(flat[id], k, d, rid).data
    {
      var n := Read(a, id);
      w := KeySort.View(n, k, d, right);
      ShowsWiden(View(), n, flat[id], k, d, right, rid);
    }

    /** Adds an absent key, its value lying in the safe file: the tree seen through the table gains it. */
    method Add(k: Key, d: Ptr)
      requires Valid() && Absent(List(tree), k)
      modifies this, safe
      ensures Valid() && normal.mem == old(normal.mem) && normal.next == old(normal.next)
      ensures List(tree) == InsertEntry(old(List(tree)), Entry(k, Located(d, AtSafe))) && added == old(added) + {k}
      ensures (tree, flatNext) == AddTree(old(tree), Entry(k, Located(d, AtSafe)), old(flatNext))
      ensures start == old(start) && startNext == old(startNext) && log == old(log) + [Entry(k, d)]
    {
      ghost var e := Entry(k, Located(d, AtSafe));
      ghost var g, h1 := AddTree(tree, e, flatNext), NewHeight(tree, height, e, flatNext);
      AddFacts(e, Entry(k, d), g, h1);
      hide *;
      Insert(k, Located(d, AtSafe));
      DoneIs(old(flat), flat, flatNext, tree, None, g);
      Record(g, h1, k, Entry(k, d));
    }

    ghost method Record(g: (Tree<Located>, Addr), h: nat, k: Key, x: Entry<Ptr>)
      requires Ok() && Leads(View(), root, g.0.addr) && flatNext == g.1 && base == Cells(start)
      requires WellFormed(g.0, h) && Stored(flat, g.0, NULL) && Distinct(g.0) && InUse(Cells(g.0), flatNext)
      requires g == SafeRun(TagTree(start), startNext, log + [x])
      requires EraseEntries(List(g.0)) == InsertAll(List(start), log + [x]) && Provenance(List(g.0), added + {k})
      modifies `tree, `height, `added, `log
      ensures Valid() && tree == g.0 && height == h && added == old(added) + {k} && log == old(log) + [x]
    {
      hide *;
      tree, height, added, log := g.0, h, added + {k}, log + [x];
      ShownIs();
      HistoryIs(g);
      ValidIs();
    }

    lemma AddFacts(e: Entry<Located>, x: Entry<Ptr>, g: (Tree<Located>, Addr), h1: nat)
      requires Valid() && Absent(List(tree), e.key) && e == Entry(x.key, Located(x.data, AtSafe))
      requires g == AddTree(tree, e, flatNext) && h1 == NewHeight(tree, height, e, flatNext)
      ensures Shown() && base == Cells(start) && normal != safe
      ensures g == SafeRun(TagTree(start), startNext, log + [x]) && WellFormed(g.0, h1) && List(g.0) == InsertEntry(List(tree), e)
      ensures EraseEntries(List(g.0)) == InsertAll(List(start), log + [x]) && Provenance(List(g.0), added + {e.key})
    {
      assert WellFormed(tree, height);
      hide WellFormed, List, AddTree, SafeRun, InsertAll, Stored, Distinct, Cells;
      AddTreeCorrect(tree, height, e, flatNext);
      InsertProvenance(List(tree), e, added);
      EraseInsert(List(tree), e);
      RunMore(start, startNext, log, x);
    }

    lemma ShownIs()
      requires Ok() && Leads(View(), root, tree.addr)
      requires WellFormed(tree, height) && Stored(flat, tree, NULL) && Distinct(tree) && InUse(Cells(tree), flatNext)
      ensures Shown()
    {
    }

    lemma HistoryIs(g: (Tree<Located>, Addr))
      requires tree == g.0 && flatNext == g.1 && g == SafeRun(TagTree(start), startNext, log) && base == Cells(start)
      requires EraseEntries(List(tree)) == InsertAll(List(start), log) && Provenance(List(tree), added)
      ensures History()
    {
    }

    lemma ValidIs()
      requires Shown() && History()
      ensures Valid()
    {
    }

    lemma InsertStart(e: Entry<Located>)
      requires Shown() && Absent(List(tree), e.key)
      ensures var path := SearchPath(tree, e.key); var goal := InsertPath(tree, path, e, None, flatNext);
              && Ok() && Leads(View(), root, tree.addr)
              && Ready(flat, flatNext, tree, height, path, e.key, None) && Points(View(), NULL, RightAddr<Located>(None))
              && Regrow(goal) == AddTree(tree, e, flatNext)
              && Regrow(goal).0.addr == (if RootAfter(goal) == NULL then tree.addr else RootAfter(goal))
    {
      StartAdd(flat, flatNext, tree, height, e.key);
      RootOfAdd(tree, SearchPath(tree, e.key), e, flatNext);
    }

    /** The store and the root after an addition, before the tree seen is brought up to date. */
    method Insert(k: Key, d: Located)
      requires Shown() && Absent(List(tree), k)
      modifies this`table, this`origin, this`flat, this`flatNext, this`root, safe
      ensures Ok() && Leads(View(), root, AddTree(tree, Entry(k, d), old(flatNext)).0.addr)
      ensures Done(old(flat), flat, flatNext, tree, None, AddTree(tree, Entry(k, d), old(flatNext)))
    {
      ghost var path, e := SearchPath(tree, k), Entry(k, d);
      ghost var goal := InsertPath(tree, path, e, None, flatNext);
      InsertStart(e);
      hide *;
      var current := Descend(k);
      AddAtLeaf(current, k, d, tree, height, path, goal);
    }

    /** The addition at the leaf, and the root afterwards. */
    method AddAtLeaf(current: Addr, k: Key, d: Located, ghost t: Tree<Located>, ghost h: nat, ghost path: Path, ghost goal: Grown<Located>)
      requires Ok() && Leads(View(), root, t.addr) && Ready(flat, flatNext, t, h, path, k, None)
      requires Leads(View(), current, Get(t, path).addr) && Points(View(), NULL, RightAddr<Located>(None))
      requires goal == InsertPath(t, path, Entry(k, d), None, flatNext)
      requires Regrow(goal).0.addr == if RootAfter(goal) == NULL then t.addr else RootAfter(goal)
      modifies this`table, this`origin, this`flat, this`flatNext, this`root, safe
      ensures Ok() && Leads(View(), root, Regrow(goal).0.addr)
      ensures Done(old(flat), flat, flatNext, t, None, Regrow(goal))
    {
      ghost var v := View();
      hide *;
      var newRoot := RecursiveAdd(current, k, d, NULL, t, h, path, None, goal);
      KeepsLeads(v, View(), root, t.addr);
      LeadsNull(View(), newRoot, RootAfter(goal));
      if newRoot != NULL { root := newRoot; }
    }

    /** Walks to the leaf where k belongs, every node read through the table. */
    method Descend(k: Key) returns (current: Addr)
      requires Shown() && Absent(List(tree), k)
      ensures ValidPath(tree, SearchPath(tree, k)) && Leads(View(), current, Get(tree, SearchPath(tree, k)).addr)
    {
      SearchPathValid(tree, k, height);
      current := root;
      ghost var sub, path, parent, h := tree, SearchPath(tree, k), NULL, height;
      var n := Read(current, sub.addr);
      while |n.kids| >= 1
        invariant Stored(flat, sub, parent) && Leads(View(), current, sub.addr) && Balanced(sub, h)
        invariant Shows(View(), n, flat[sub.addr])
        invariant path == SearchPath(sub, k) && ValidPath(sub, path)
        invariant Get(sub, path) == Get(tree, SearchPath(tree, k))
        decreases h
      {
        assert Addrs(sub.kids) == flat[sub.addr].kids && Siblings(sub.kids, h - 1);
        var i := ChildFor(n, k, sub);
        parent := sub.addr;
        current := n.kids[i];
        sub, h := sub.kids[i], h - 1;
        path := path[1..];
        n := Read(current, sub.addr);
      }
    }

    /** The pointer of a stored key that shares its first five bytes with k, and the file of its value. */
    method Find(k: Key) returns (d: Option<Located>)
      requires Valid()
      ensures d == Pointer(Found(tree, k, Prefix))
      ensures d.None? <==> forall e | e in List(tree) :: !SharePrefix(e.key, k)
      ensures d.Some? ==> exists e :: e in List(tree) && SharePrefix(e.key, k)
                                      && d.value == e.data && (d.value.at == AtSafe <==> e.key in added)
    {
      d := SubtreeFind(root, k, tree, height, NULL);
      PrefixFound(tree, height, k);
    }

    method SubtreeFind(a: Addr, k: Key, ghost t: Tree<Located>, ghost h: nat, ghost parent: Addr) returns (d: Option<Located>)
      requires Ok() && Stored(flat, t, parent) && Leads(View(), a, t.addr) && Balanced(t, h)
      ensures d == Pointer(Found(t, k, Prefix))
      decreases h
    {
      var n := Read(a, t.addr);
      var i := 0;
      while i < |n.keys| && Seen(n.keys[i], Prefix) < Seen(k, Prefix)
        invariant 0 <= i <= |n.keys|
        invariant forall j | 0 <= j < i :: Seen(t.entries[j].key, Prefix) < Seen(k, Prefix)
      {
        i := i + 1;
      }
      StopIs(t.entries, k, Prefix, i);
      if i < |n.keys| && Seen(n.keys[i], Prefix) == Seen(k, Prefix) { return Some(n.data[i]); }
      if i >= |n.kids| { return None; }
      assert Siblings(t.kids, h - 1);
      d := SubtreeFind(n.kids[i], k, t.kids[i], h - 1, t.addr);
    }

    // -------------------------------------------------------------- commit

    /** The session's own state while the normal file is written. */
    ghost predicate Frozen(v: Overlay)
      reads `table, safe
    {
      normal != safe && safe.mem == v.safe && table == v.table
    }

    /** The child slots read through the table. */
    function ReadKids(x: Addr): seq<Addr>
      reads `table, normal, safe
    {
      if x in table then if table[x].addr in safe.mem then safe.mem[table[x].addr].kids else []
      else if x in normal.mem then normal.mem[x].kids else []
    }

    /** Puts the record read from x in its place in the normal file. */
    method Install(x: Addr, ghost v: Overlay, ghost fl: Heap<Located>, ghost t: Tree<Located>, ghost p: Addr, ghost parent: Addr)
      returns (swap: Addr)
      requires Frozen(v) && Mergeable(v, fl, x, t, p, parent, normal.mem, normal.next)
      modifies normal
      ensures Installed(v, x, t.addr, old(normal.mem), old(normal.next), normal.mem, normal.next, swap)
      ensures x !in table ==> swap == x
    {
      InstallCases(v, fl, x, t, p, parent, normal.mem, normal.next);
      hide *;
      if x !in table {
        swap := x;
      } else if table[x].addr == x {
        swap := normal.Duplicate(safe.mem[x]);
      } else {
        normal.mem := normal.mem[x := safe.mem[table[x].addr]];
        swap := x;
      }
    }

    /** The parent's child slot and the node's parent field. */
    method Link(swap: Addr, parent: Addr, index: nat)
      requires swap in normal.mem && parent != swap
      requires parent != NULL ==> parent in normal.mem && index < |normal.mem[parent].kids|
      modifies normal`mem
      ensures normal.mem == Linked(old(normal.mem), swap, parent, index)
    {
      if parent != NULL {
        normal.mem := normal.mem[parent := normal.mem[parent].(kids := normal.mem[parent].kids[index := swap])];
      }
      normal.mem := normal.mem[swap := normal.mem[swap].(parent := parent)];
    }

    /**
      Writes the subtree read from x into the normal file, below the given parent: a node without an
      entry stays where it is, a copy goes back to its place, a record known by its safe address only
      gets a new one.
    */
    method MergeSafeBtree(x: Addr, parent: Addr, index: nat, ghost v: Overlay, ghost fl: Heap<Located>, ghost t: Tree<Located>, ghost p: Addr)
      returns (swap: Addr, ghost u: Tree<Ptr>)
      requires Frozen(v) && Mergeable(v, fl, x, t, p, parent, normal.mem, normal.next)
      requires parent != NULL ==> parent in normal.mem && index < |normal.mem[parent].kids|
      modifies normal
      ensures Merged(v, t, parent, old(normal.next), normal.next, old(normal.mem), normal.mem, u) && u.addr == swap
      ensures parent != NULL ==>
                parent in normal.mem && normal.mem[parent] == old(normal.mem)[parent].(kids := old(normal.mem)[parent].kids[index := swap])
      decreases t, 1
    {
      ghost var h0, lo0 := normal.mem, normal.next;
      ShowsMergeable(v, fl, x, t, p, parent, h0, lo0);
      hide Frozen, Mergeable, Merging, PartMerged, Merged, Installed, Placed, Linked, ReadKids, Outside;
      swap := Install(x, v, fl, t, p, parent);
      MergingStarts(v, fl, x, t, p, parent, index, h0, lo0, normal.mem, normal.next, swap);
      Link(swap, parent, index);
      ghost var h1, lo, us := normal.mem, normal.next, [];
      MergingEnds(v, fl, x, t, p, swap, parent, lo, h1);
      SlotCount(v, fl, x, t, p, swap, parent, lo, lo, h1, h1, us);
      SlotsRead(x, v);
      var i := 0;
      while i < |ReadKids(x)|
        invariant Frozen(v) && i == |us| <= |t.kids| == |ReadKids(x)|
        invariant PartMerged(v, t, swap, lo, normal.next, h1, normal.mem, us) && lo <= normal.next
      {
        us := MergeChild(x, swap, i, v, fl, t, p, parent, lo, h1, us);
        SlotCount(v, fl, x, t, p, swap, parent, lo, normal.next, h1, normal.mem, us);
        SlotsRead(x, v);
        i := i + 1;
      }
      PartEnd(v, t, swap, parent, lo0, lo, normal.next, h0, h1, normal.mem, us);
      KidsWithin(t, |us|);
      if parent != NULL { ParentStays(v, t, swap, parent, lo0, lo, normal.next, h0, h1, normal.mem, us); }
      u := Tree(swap, EraseEntries(t.entries), us);
    }

    lemma SlotsRead(x: Addr, v: Overlay)
      requires Frozen(v)
      ensures ReadKids(x) == SlotsOf(v, x, normal.mem)
    {
    }

    /** One child merged below the node at swap. */
    method MergeChild(x: Addr, swap: Addr, i: nat, ghost v: Overlay, ghost fl: Heap<Located>, ghost t: Tree<Located>, ghost p: Addr,
                      ghost parent: Addr, ghost lo: Addr, ghost h1: Heap<Ptr>, ghost us: seq<Tree<Ptr>>)
      returns (ghost us': seq<Tree<Ptr>>)
      requires Frozen(v) && Merging(v, fl, x, t, p, swap, parent, lo, h1) && i == |us| < |t.kids| && lo <= normal.next
      requires PartMerged(v, t, swap, lo, normal.next, h1, normal.mem, us)
      modifies normal
      ensures |us'| == i + 1 && PartMerged(v, t, swap, lo, normal.next, h1, normal.mem, us') && old(normal.next) <= normal.next
      ensures Frozen(v)
      decreases t, 0
    {
      ghost var h, hi := normal.mem, normal.next;
      NextChild(v, fl, x, t, p, swap, parent, lo, hi, h1, h, us);
      ShowsMergeable(v, fl, SlotsOf(v, x, h)[i], t.kids[i], t.addr, swap, h, hi);
      MergingEnds(v, fl, x, t, p, swap, parent, lo, h1);
      SlotsRead(x, v);
      MergingNode(v, fl, x, t, p, swap, parent, lo, h1);
      hide Mergeable, Merging, PartMerged, Merged, Outside, SlotsOf, ReadKids;
      var s;
      ghost var c: Tree<Ptr>;
      s, c := MergeSafeBtree(ReadKids(x)[i], swap, i, v, fl, t.kids[i], t.addr);
      MergedApart(v, t.kids[i], swap, hi, normal.next, h, normal.mem, c);
      PartStep(v, t, swap, lo, hi, normal.next, h1, h, normal.mem, us, c);
      us' := us + [c];
    }

    /**
      The commit: the tree seen through the table becomes the normal tree, written wholly in the normal
      file with new links, with the same shape, keys and pointers.
    */
    method Commit(master: OBtree)
      requires Valid() && master.Valid() && master.file == normal && start == master.tree
      modifies normal, master
      ensures master.Valid() && Iso(tree, master.tree) && List(master.tree) == InsertAll(List(start), log)
      ensures master.height == height
    {
      ghost var v, t, f, h0, lo := View(), tree, flat, normal.mem, normal.next;
      CommitStarts(v, f, root, t, h0, lo, base);
      IsBased(v, f, root, t, NULL, NULL, h0, lo);
      hide Mergeable, Merged, Iso, Stored, Distinct, WellFormed, Cells, List, InUse, Allotted, Based;
      ghost var u: Tree<Ptr>;
      var newRoot;
      newRoot, u := MergeSafeBtree(root, NULL, 0, v, f, t, NULL);
      CommitEnds(v, t, lo, normal.next, h0, normal.mem, u);
      IsoWellFormed(t, u, height);
      master.root := newRoot;
      master.tree, master.height := u, height;
    }
  }

  /** b is the safe record to write for the node id. */
  ghost predicate Writable(v: Overlay, flat: Heap<Located>, b: Addr, id: Addr) {
    && b in v.origin && v.origin[b] == id && b in v.table && b in v.safe && v.table[b].addr == b && |v.table[b].at| == MAX_KEYS
    && id in flat && Shows(v, Tag(v.safe[b], v.table[b].at), flat[id])
  }

  lemma IsWritable(v: Overlay, flat: Heap<Located>, safeNext: Addr, flatNext: Addr, b: Addr)
    requires Consistent(v, flat, safeNext, flatNext) && b in v.origin
    ensures Writable(v, flat, b, v.origin[b])
  {
    assert Live(v, b) && Id(v.origin, b) == v.origin[b];
    TagSound(v, v.safe[b], v.table[b].at);
    SoundShows(v, flat, Tag(v.safe[b], v.table[b].at));
  }

  lemma NameInFlat(v: Overlay, flat: Heap<Located>, x: Addr)
    requires Mirrors(v, flat) && Live(v, x)
    ensures Id(v.origin, x) in flat
  {
  }

  lemma KeepsAll(v: Overlay, v': Overlay, s: seq<Addr>, ids: seq<Addr>)
    requires Keeps(v, v') && AllPoint(v, s, ids)
    ensures AllPoint(v', s, ids)
  {
  }

  lemma KeepsSelf(v: Overlay)
    ensures Keeps(v, v)
  {
  }

  lemma PointsInFlat(v: Overlay, flat: Heap<Located>, s: seq<Addr>, ids: seq<Addr>)
    requires Mirrors(v, flat) && AllPoint(v, s, ids)
    ensures |s| == |ids| && forall i | 0 <= i < |s| :: Leads(v, s[i], ids[i]) && ids[i] in flat
  {
  }

  lemma HalveParent(f: Heap<Located>, id: Addr, w: Node<Located>, s: Addr)
    requires id in f && s !in f && Splittable(f, id, w)
    ensures id in Halve(f, id, w, s) && Halve(f, id, w, s)[id].parent == f[id].parent
  {
    if w.kids != [] { assert forall x | x in w.kids[2..] :: x in w.kids; }
  }

  lemma SplittableSize(v: Overlay, f: Heap<Located>, id: Addr, raw: Node<Located>, w: Node<Located>)
    requires id in f && Splittable(f, id, w) && Shows(v, raw, w)
    ensures |w.keys| == |w.data| == MAX_KEYS + 1 && (w.kids == [] || |w.kids| == MAX_KEYS + 2)
    ensures raw.keys == w.keys && raw.data == w.data && |raw.kids| == |w.kids| && Points(v, raw.parent, w.parent)
  {
  }

  lemma GetRoot<D>(t: Tree<D>)
    ensures Get(t, []) == t
  {
  }

  lemma WidenedIs(f: Heap<Located>, t: Tree<Located>, path: Path, k: Key, d: Located, r: Option<Tree<Located>>)
    requires ValidPath(t, path) && Get(t, path).addr in f
    requires forall d :: Splittable(f, Get(t, path).addr, WidenNode(f[Get(t, path).addr], k, d, RightAddr(r)))
    ensures var id := Get(t, path).addr; var w := WidenNode(f[id], k, d, RightAddr(r));
            && Splittable(f, id, w) && (w.kids == [] ==> f[id].kids == []) && |w.keys| == |w.data| == 4
  {
  }

  lemma IsHalved(f: Heap<Located>, next: Addr, t: Tree<Located>, path: Path, e: Entry<Located>, r: Option<Tree<Located>>, f': Heap<Located>, m: Entry<Located>)
    requires ValidPath(t, path) && Get(t, path).addr in f
    requires Splittable(f, Get(t, path).addr, WidenNode(f[Get(t, path).addr], e.key, e.data, RightAddr(r)))
    requires f' == Halve(f, Get(t, path).addr, WidenNode(f[Get(t, path).addr], e.key, e.data, RightAddr(r)), next)
    requires m.key == WidenNode(f[Get(t, path).addr], e.key, e.data, RightAddr(r)).keys[1]
    requires m.data == WidenNode(f[Get(t, path).addr], e.key, e.data, RightAddr(r)).data[1]
    ensures Halved(f, next, t, path, e, r, f') && IsMid(f, t, path, e, r, m)
  {
  }

  lemma ShowsParent(v: Overlay, raw: Node<Located>, n: Node<Located>)
    requires Shows(v, raw, n)
    ensures n.parent == NULL ==> raw.parent == NULL
    ensures n.parent != NULL ==> raw.parent != NULL && Leads(v, raw.parent, n.parent)
  {
  }

  /** The values of exactly these keys lie in the safe file. */
  ghost predicate Provenance(s: seq<Entry<Located>>, added: set<Key>) {
    forall i | 0 <= i < |s| :: s[i].data.at == AtSafe <==> s[i].key in added
  }

  lemma InsertProvenance(s: seq<Entry<Located>>, e: Entry<Located>, added: set<Key>)
    requires Provenance(s, added) && Absent(s, e.key) && e.data.at == AtSafe
    ensures Provenance(InsertEntry(s, e), added + {e.key})
  {
    var r := InsertEntry(s, e);
    InsertMembers(s, e);
    forall i | 0 <= i < |r| ensures r[i].data.at == AtSafe <==> r[i].key in added + {e.key} {
      assert r[i] in multiset(r);
      if r[i] != e { assert r[i] in s; }
    }
  }

  lemma LeadsNull(v: Overlay, x: Addr, id: Addr)
    requires Points(v, x, id)
    ensures x == NULL <==> id == NULL
    ensures x != NULL ==> Leads(v, x, id)
  {
  }

  lemma DoneIs<D>(h: Heap<D>, h': Heap<D>, next': Addr, t: Tree<D>, r: Option<Tree<D>>, grown: (Tree<D>, Addr))
    requires Done(h, h', next', t, r, grown)
    ensures Stored(h', grown.0, NULL) && Distinct(grown.0) && InUse(Cells(grown.0), next') && next' == grown.1
  {
  }
}
