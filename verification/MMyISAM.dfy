/**
  The storage engine: the normal index and up to five safe sessions.  A change of the normal index
  closes every session, so that an active session always stands on the current normal tree.
*/
module StorageEngine {
  import opened Seqs
  import opened BTreeSpec
  import opened BTreeInsert
  import opened BTreeFind
  import opened BTreeRemove
  import opened BTreeOutcome
  import opened IndexTree
  import opened SafeTable
  import opened SafeStart
  import opened SafeCommit
  import opened SafeSimulation
  import opened SafeIndexTree
  import opened Sessions

  /** A key is absent with or without homes. */
  lemma AbsentErased(s: seq<Entry<Located>>, k: Key)
    ensures Absent(EraseEntries(s), k) <==> Absent(s, k)
  {
    assert forall i | 0 <= i < |s| :: EraseEntries(s)[i].key == s[i].key;
  }

  /** A prefix is there with or without homes. */
  lemma PrefixErased(s: seq<Entry<Located>>, k: Key)
    ensures (forall e | e in EraseEntries(s) :: !SharePrefix(e.key, k)) <==> forall e | e in s :: !SharePrefix(e.key, k)
  {
    UnseenIs(s, k);
    UnseenIs(EraseEntries(s), k);
    assert forall i | 0 <= i < |s| :: EraseEntries(s)[i].key == s[i].key;
  }

  class MMyISAM {
    const index: OBtree
    var slots: seq<SafeOBtree?>

    /** The engine as module Sessions sees it. */
    ghost var now: Engine

    /** The session s was opened on the current normal tree. */
    ghost predicate Current(s: SafeOBtree)
      reads s, s.normal, s.safe, index, index.file
    {
      s.normal == index.file && s.safe != index.file && s.start == index.tree && s.Valid()
    }

    ghost predicate Shows()
      reads this, index, set s | s in slots
    {
      && |now.sessions| == |slots| && now.normal == List(index.tree)
      && forall i | 0 <= i < |slots| :: now.sessions[i] == ShownAs(slots[i])
    }

    ghost function ShownAs(s: SafeOBtree?): Option<Session>
      reads s
    {
      if s == null then None else Some(Session(List(s.start), s.log))
    }

    ghost predicate Valid()
      reads this, index, index.file, set s | s in slots, set s | s in slots && s != null :: s.safe
      reads set s | s in slots && s != null :: s.normal
    {
      index.Valid() && |slots| == REGISTRY_COUNT && Shows() && AllCurrent() && Apart()
    }

    ghost predicate AllCurrent()
      reads this, index, index.file, set s | s in slots, set s | s in slots && s != null :: s.safe
      reads set s | s in slots && s != null :: s.normal
    {
      forall s: SafeOBtree? | s in slots && s != null :: Current(s)
    }

    /** No two slots share a session or a safe file. */
    ghost predicate Apart()
      reads this, set s | s in slots
    {
      forall i, j | 0 <= i < j < |slots| && slots[i] != null && slots[j] != null ::
        slots[i] != slots[j] && slots[i].safe != slots[j].safe
    }

    /** What an addition may write: the normal index, or one session. */
    ghost function Touched(registry: int): set<object>
      reads this, index, set s | s in slots
    {
      if registry < 0 then {index, index.file}
      else if registry < |slots| && slots[registry] != null then {slots[registry], slots[registry].safe}
      else {}
    }

    constructor ()
      ensures Valid() && now == START && fresh(index) && fresh(index.file)
    {
      index := new OBtree();
      slots, now := [null, null, null, null, null], START;
    }

    method ClearSafeMode()
      requires |slots| == REGISTRY_COUNT && index.Valid()
      modifies `slots, `now
      ensures Valid() && now == Engine(List(index.tree), CLOSED) && slots == [null, null, null, null, null]
    {
      slots := seq(REGISTRY_COUNT, i => null);
      now := Engine(List(index.tree), CLOSED);
    }

    ghost function AddAction(registry: int, k: Key, d: Ptr): Action {
      if registry < 0 then AddNormal(Entry(k, d)) else AddSafe(registry, Entry(k, d))
    }

    /** An addition in normal mode (negative registry index) or in a session; nothing else is written. */
    method Add(registry: int, k: Key, d: Ptr) returns (ok: bool)
      requires Valid() && registry < REGISTRY_COUNT && Allowed(now, AddAction(registry, k, d))
      modifies this, Touched(registry)
      ensures Valid() && (now, ok) == Step(old(now), AddAction(registry, k, d))
      ensures ok <==> registry < 0 || old(slots[registry]) != null
      ensures slots == if registry < 0 then [null, null, null, null, null] else old(slots)
    {
      if registry >= 0 {
        var session := slots[registry];
        if session == null { return false; }
        AddToSession(session, registry, k, d);
      } else {
        index.Add(k, d);
        ClearSafeMode();
      }
      ok := true;
    }

    method AddToSession(session: SafeOBtree, i: nat, k: Key, d: Ptr)
      requires Valid() && i < REGISTRY_COUNT && slots[i] == session && Allowed(now, AddSafe(i, Entry(k, d)))
      modifies session, session.safe, `now
      ensures Valid() && (now, true) == Step(old(now), AddSafe(i, Entry(k, d)))
    {
      hide *;
      CanAdd(session, i, k, d);
      ghost var e, x := now, Session(List(session.start), session.log + [Entry(k, d)]);
      SessionAdd(session, i, k, d);
      now := e.(sessions := e.sessions[i := Some(x)]);
      ShowsNext(e, i, x);
      ValidBy();
    }

    lemma CanAdd(session: SafeOBtree, i: nat, k: Key, d: Ptr)
      requires Valid() && i < REGISTRY_COUNT && slots[i] == session && Allowed(now, AddSafe(i, Entry(k, d)))
      ensures i < 5 == |slots| == |now.sessions| && Absent(List(session.tree), k) && now.normal == List(index.tree)
      ensures forall j | 0 <= j < |slots| :: now.sessions[j] == ShownAs(slots[j])
      ensures Step(now, AddSafe(i, Entry(k, d)))
           == (now.(sessions := now.sessions[i := Some(Session(List(session.start), session.log + [Entry(k, d)]))]), true)
    {
      AbsentErased(List(session.tree), k);
      assert session in slots && Current(session);
      assert now.sessions[i] == ShownAs(slots[i]);
    }

    /** The session's own addition leaves all others as they are. */
    method SessionAdd(session: SafeOBtree, i: nat, k: Key, d: Ptr)
      requires Valid() && i < REGISTRY_COUNT && slots[i] == session && Absent(List(session.tree), k)
      modifies session, session.safe
      ensures index.Valid() && AllCurrent() && Apart()
      ensures forall j | 0 <= j < |slots| && j != i :: ShownAs(slots[j]) == old(ShownAs(slots[j]))
      ensures ShownAs(session) == Some(Session(List(session.start), old(session.log) + [Entry(k, d)])) && session.start == old(session.start)
    {
      assert session in slots && Current(session);
      forall s: SafeOBtree? | s in slots && s != null && s != session ensures Current(s) && s.safe != session.safe {
        var j :| 0 <= j < |slots| && slots[j] == s;
        assert j != i;
      }
      session.Add(k, d);
      forall s: SafeOBtree? | s in slots && s != null ensures Current(s) {
        if s != session { assert Current(s); }
      }
    }

    lemma ShowsNext(e: Engine, i: nat, x: Session)
      requires |slots| == 5 && |e.sessions| == |slots| && i < 5 && now == e.(sessions := e.sessions[i := Some(x)])
      requires e.normal == List(index.tree) && ShownAs(slots[i]) == Some(x)
      requires forall j | 0 <= j < |slots| && j != i :: e.sessions[j] == ShownAs(slots[j])
      ensures Shows()
    {
      hide ShownAs, List;
    }

    lemma ValidBy()
      requires index.Valid() && |slots| == 5 && Shows() && AllCurrent() && Apart()
      ensures Valid()
    {
    }

    /** A removal in normal mode, at the leaf a that the descent came to. */
    method Remove(a: Addr, k: Key, ghost path: Path)
      requires Valid() && ValidPath(index.tree, path) && a == Get(index.tree, path).addr && Get(index.tree, path).kids == []
      requires Removable(index.tree, path) && !Absent(Get(index.tree, path).entries, k)
      modifies this, index, index.file
      ensures Valid() && Allowed(old(now), RemoveNormal(k)) && now == Step(old(now), RemoveNormal(k)).0
      ensures slots == [null, null, null, null, null]
    {
      HeldBelow(index.tree, index.height, path, k);
      var _ := index.RemoveAtLeaf(a, k, path);
      ClearSafeMode();
    }

    /** The data pointer for k, and the home of its value; none also when there is no such session. */
    method Find(registry: int, k: Key) returns (d: Option<Located>)
      requires Valid() && registry < REGISTRY_COUNT
      ensures registry >= 0 && now.sessions[registry] == None ==> d == None
      ensures registry >= 0 && slots[registry] != null ==> d == Pointer(Found(slots[registry].tree, k, Prefix))
      ensures registry < 0 || now.sessions[registry].Some? ==>
                var s := if registry < 0 then now.normal else Listed(now.sessions[registry].value);
                && (d.None? <==> forall e | e in s :: !SharePrefix(e.key, k))
                && (d.Some? ==> exists e :: e in s && SharePrefix(e.key, k) && e.data == d.value.ptr)
    {
      if registry >= 0 {
        var session := slots[registry];
        if session == null { return None; }
        assert session in slots;
        d := session.Find(k);
        PrefixErased(List(session.tree), k);
        ErasedHas(List(session.tree), d);
      } else {
        var p := index.Find(k);
        d := match p case Some(x) => Some(Located(x, AtNormal)) case None => None;
      }
    }

    /** Opens a session; one that was open in this slot is dropped. */
    method MigrateToSafeMode(registry: nat)
      requires Valid() && registry < REGISTRY_COUNT
      modifies this
      ensures Valid() && now == Step(old(now), OpenSafe(registry)).0
      ensures slots[registry] != null && slots == old(slots)[registry := slots[registry]]
      ensures fresh(slots[registry]) && fresh(slots[registry].safe)
    {
      hide *;
      CanOpen(registry);
      ghost var e := now;
      var session := OpenSession(registry);
      now := e.(sessions := e.sessions[registry := Some(Session(e.normal, []))]);
      ShowsNext(e, registry, Session(e.normal, []));
      ValidBy();
    }

    lemma CanOpen(i: nat)
      requires Valid() && i < REGISTRY_COUNT
      ensures i < 5 == |slots| == |now.sessions| && now.normal == List(index.tree) && Allowed(now, OpenSafe(i))
      ensures forall j | 0 <= j < |slots| :: now.sessions[j] == ShownAs(slots[j])
      ensures Step(now, OpenSafe(i)).0 == now.(sessions := now.sessions[i := Some(Session(now.normal, []))])
    {
    }

    method OpenSession(i: nat) returns (session: SafeOBtree)
      requires Valid() && i < REGISTRY_COUNT
      modifies `slots
      ensures index.Valid() && AllCurrent() && Apart() && slots == old(slots)[i := session] && |slots| == 5
      ensures fresh(session) && fresh(session.safe) && ShownAs(session) == Some(Session(List(index.tree), []))
      ensures forall j | 0 <= j < |slots| && j != i :: ShownAs(slots[j]) == old(ShownAs(slots[j]))
    {
      session := new SafeOBtree(index);
      slots := slots[i := session];
      forall s: SafeOBtree? | s in slots && s != null ensures Current(s) {
        if s != session { assert s in old(slots) && Current(s); }
      }
    }

    /** Installs exactly the session's additions, and closes every session. */
    method SafeCommitExit(registry: int) returns (ok: bool)
      requires Valid() && registry < REGISTRY_COUNT
      modifies this, index, index.file
      ensures Valid() && (now, ok) == Step(old(now), if registry < 0 then Ignored else CommitSafe(registry))
      ensures ok <==> registry >= 0 && old(slots[registry]) != null
      ensures ok ==> Iso(old(slots[registry].tree), index.tree) && slots == [null, null, null, null, null]
      ensures !ok ==> slots == old(slots) && index.tree == old(index.tree) && index.file.mem == old(index.file.mem)
    {
      if registry < 0 { return false; }
      var session := slots[registry];
      if session == null { return false; }
      assert session in slots;
      session.Commit(index);
      ClearSafeMode();
      ok := true;
    }

    /** Closes every session and leaves the normal index alone. */
    method SafeAbortExit(registry: int) returns (ok: bool)
      requires Valid()
      modifies `slots, `now
      ensures Valid() && (now, ok) == Step(old(now), if registry < 0 then Ignored else AbortSafe)
      ensures ok <==> registry >= 0
      ensures slots == if ok then [null, null, null, null, null] else old(slots)
    {
      if registry < 0 { return false; }
      ClearSafeMode();
      ok := true;
    }
  }

  lemma ErasedHas(s: seq<Entry<Located>>, d: Option<Located>)
    ensures d.Some? ==> forall e | e in s && e.data == d.value :: Entry(e.key, d.value.ptr) in EraseEntries(s)
  {
    forall i | 0 <= i < |s| ensures EraseEntries(s)[i] == Entry(s[i].key, s[i].data.ptr) {}
    forall e | e in s && d.Some? && e.data == d.value ensures Entry(e.key, d.value.ptr) in EraseEntries(s) {
      var i :| 0 <= i < |s| && s[i] == e;
      assert EraseEntries(s)[i] == Entry(e.key, d.value.ptr);
    }
  }

  /** A key of a node on a path is in the tree's list. */
  lemma HeldBelow(t: Tree<Ptr>, height: nat, path: Path, k: Key)
    requires WellFormed(t, height) && ValidPath(t, path) && Get(t, path).kids == [] && !Absent(Get(t, path).entries, k)
    ensures !Absent(List(t), k)
  {
    var u := Get(t, path);
    assert List(u) == u.entries;
    ReplaceRemoves(t, height, path, Tree(u.addr, RemoveEntry(u.entries, k), []), k);
  }
}
