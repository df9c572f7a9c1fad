/**
  The storage engine seen from outside: the listed entries of the normal index, and for each open
  session the entries it started from and those added since.
*/
module Sessions {
  import opened Seqs
  import opened BTreeSpec
  import opened BTreeInsert
  import opened BTreeFind
  import opened BTreeRemove
  import opened IndexTree
  import opened SafeSimulation

  const REGISTRY_COUNT: nat := 5

  datatype Session = Session(base: seq<Entry<Ptr>>, log: seq<Entry<Ptr>>)

  datatype Engine = Engine(normal: seq<Entry<Ptr>>, sessions: seq<Option<Session>>)

  datatype Action =
    | AddNormal(entry: Entry<Ptr>)
    | AddSafe(slot: nat, entry: Entry<Ptr>)
    | RemoveNormal(key: Key)
    | OpenSafe(slot: nat)
    | CommitSafe(slot: nat)
    | AbortSafe
    | Ignored                    // a commit or an abort without a registry index

  const CLOSED: seq<Option<Session>> := [None, None, None, None, None]

  predicate Sized(e: Engine) { |e.sessions| == REGISTRY_COUNT }

  /** The session's entries: those it started from and its own. */
  ghost function Listed(s: Session): seq<Entry<Ptr>> { InsertAll(s.base, s.log) }

  /** Registry indices are in range; a key that is added is not there, one that is removed is. */
  ghost predicate Allowed(e: Engine, a: Action) {
    && Sized(e)
    && match a
       case AddNormal(x) => Absent(e.normal, x.key)
       case AddSafe(i, x) => i < REGISTRY_COUNT && (e.sessions[i].Some? ==> Absent(Listed(e.sessions[i].value), x.key))
       case RemoveNormal(k) => !Absent(e.normal, k)
       case OpenSafe(i) => i < REGISTRY_COUNT
       case CommitSafe(i) => i < REGISTRY_COUNT
       case AbortSafe => true
       case Ignored => true
  }

  /** The engine after the action, and whether it succeeded. */
  ghost function Step(e: Engine, a: Action): (Engine, bool)
    requires Allowed(e, a)
  {
    match a
    case AddNormal(x) => (Engine(InsertEntry(e.normal, x), CLOSED), true)
    case AddSafe(i, x) =>
      if e.sessions[i].None? then (e, false)
      else (e.(sessions := e.sessions[i := Some(e.sessions[i].value.(log := e.sessions[i].value.log + [x]))]), true)
    case RemoveNormal(k) => (Engine(RemoveEntry(e.normal, k), CLOSED), true)
    case OpenSafe(i) => (e.(sessions := e.sessions[i := Some(Session(e.normal, []))]), true)
    case CommitSafe(i) => if e.sessions[i].None? then (e, false) else (Engine(Listed(e.sessions[i].value), CLOSED), true)
    case AbortSafe => (e.(sessions := CLOSED), true)
    case Ignored => (e, false)
  }

  const START: Engine := Engine([], CLOSED)

  /** From the empty engine, each action allowed when its turn comes. */
  ghost predicate CanRun(actions: seq<Action>)
    decreases |actions|, 0
  {
    actions == [] || (CanRun(Before(actions)) && Allowed(After(Before(actions)), Last(actions)))
  }

  ghost function After(actions: seq<Action>): (e: Engine)
    requires CanRun(actions)
    decreases |actions|, 1
  {
    if actions == [] then START else Step(After(Before(actions)), Last(actions)).0
  }

  function Before(actions: seq<Action>): (r: seq<Action>)
    requires actions != []
    ensures |r| == |actions| - 1
  {
    actions[..|actions| - 1]
  }

  function Last(actions: seq<Action>): Action
    requires actions != []
  {
    actions[|actions| - 1]
  }

  /** What the actions add in the slot, in order. */
  function Own(actions: seq<Action>, slot: nat): seq<Entry<Ptr>>
    decreases |actions|
  {
    if actions == [] then []
    else
      var rest := Own(Before(actions), slot);
      if Last(actions).AddSafe? && Last(actions).slot == slot then rest + [Last(actions).entry] else rest
  }

  // ---------------------------------------------------------------- every run

  /** Every open session started from the present normal entries, and what it shows is sorted. */
  ghost predicate Current(e: Engine) {
    && Sized(e) && Sorted(e.normal)
    && forall i | 0 <= i < |e.sessions| && e.sessions[i].Some? :: StandsOn(e.sessions[i].value, e.normal)
  }

  ghost predicate StandsOn(s: Session, normal: seq<Entry<Ptr>>) {
    s.base == normal && Sorted(Listed(s)) && New(s.base, s.log)
  }

  /** Each entry was new when it was added. */
  ghost predicate New(s: seq<Entry<Ptr>>, es: seq<Entry<Ptr>>) {
    forall j | 0 <= j < |es| :: Absent(InsertAll(s, es[..j]), es[j].key)
  }

  lemma NewMore(s: seq<Entry<Ptr>>, es: seq<Entry<Ptr>>, x: Entry<Ptr>)
    requires New(s, es) && Absent(InsertAll(s, es), x.key)
    ensures New(s, es + [x])
  {
    var all := es + [x];
    forall j | 0 <= j < |all| ensures Absent(InsertAll(s, all[..j]), all[j].key) {
      assert j < |es| ==> all[..j] == es[..j];
      assert all[..|es|] == es;
    }
  }

  lemma InsertAllMore(s: seq<Entry<Ptr>>, es: seq<Entry<Ptr>>, x: Entry<Ptr>)
    ensures InsertAll(s, es + [x]) == InsertEntry(InsertAll(s, es), x)
  {
    assert (es + [x])[..|es|] == es;
  }

  lemma StepKeepsCurrent(e: Engine, a: Action)
    requires Current(e) && Allowed(e, a)
    ensures Current(Step(e, a).0)
  {
    match a
    case AddNormal(x) => InsertKeepsSorted(e.normal, x);
    case AddSafe(i, x) =>
      if e.sessions[i].Some? {
        var s := e.sessions[i].value;
        InsertAllMore(s.base, s.log, x);
        InsertKeepsSorted(Listed(s), x);
        NewMore(s.base, s.log, x);
      }
    case RemoveNormal(k) => RemoveKeepsSorted(e.normal, k);
    case OpenSafe(i) =>
    case CommitSafe(i) =>
    case AbortSafe =>
    case Ignored =>
  }

  /** In every run: each open session's base is the normal entries as they are now. */
  lemma {:induction false} RunKeepsCurrent(actions: seq<Action>)
    requires CanRun(actions)
    ensures Current(After(actions))
    decreases |actions|
  {
    if actions != [] {
      RunKeepsCurrent(Before(actions));
      StepKeepsCurrent(After(Before(actions)), Last(actions));
    }
  }

  // ---------------------------------------------------------------- where a session comes from

  /** An action that neither changes the normal entries nor closes sessions: an abort always does, a commit if there is a session. */
  predicate Quiet(e: Engine, a: Action) {
    match a
    case AddSafe(_, _) => true
    case OpenSafe(_) => true
    case Ignored => true
    case CommitSafe(i) => i < |e.sessions| && e.sessions[i].None?
    case AddNormal(_) => false
    case RemoveNormal(_) => false
    case AbortSafe => false
  }

  /** Behind its opening at m nothing happened that changed or closed anything; what was added in the slot is its log. */
  ghost predicate OpenedAt(actions: seq<Action>, slot: nat, m: nat, s: Session) {
    && m < |actions| && actions[m] == OpenSafe(slot)
    && (forall j | m <= j <= |actions| :: StillNormal(actions, j, s.base))
    && (forall j | m < j < |actions| :: Undisturbed(actions, j, slot))
    && s.log == Own(actions[m + 1..], slot)
  }

  /** After j actions the normal entries are these. */
  ghost predicate StillNormal(actions: seq<Action>, j: nat, normal: seq<Entry<Ptr>>)
    requires j <= |actions|
  {
    CanRun(actions[..j]) && After(actions[..j]).normal == normal
  }

  /** Action j is quiet and does not open the slot anew. */
  ghost predicate Undisturbed(actions: seq<Action>, j: nat, slot: nat)
    requires j < |actions|
  {
    actions[j] != OpenSafe(slot) && CanRun(actions[..j]) && Quiet(After(actions[..j]), actions[j])
  }

  lemma OwnNothing(slot: nat)
    ensures Own([], slot) == []
  {
  }

  lemma OwnMore(actions: seq<Action>, a: Action, slot: nat)
    ensures Own(actions + [a], slot) == Own(actions, slot) + (if a.AddSafe? && a.slot == slot then [a.entry] else [])
  {
    assert Before(actions + [a]) == actions;
  }

  /**
    A session that is open at the end of a run was opened by some action, from the normal entries as
    they still are; its log is exactly what was added in its slot since, whatever the other sessions did.
  */
  lemma {:induction false} OpenSession(actions: seq<Action>, slot: nat) returns (m: nat)
    requires CanRun(actions) && slot < REGISTRY_COUNT && Sized(After(actions)) && After(actions).sessions[slot].Some?
    ensures OpenedAt(actions, slot, m, After(actions).sessions[slot].value)
    decreases |actions|
  {
    assert START.sessions[slot] == None;
    assert actions != [];
    var before, a := Before(actions), Last(actions);
    RunKeepsCurrent(before);
    var e := After(before);
    assert actions == before + [a];
    if a == OpenSafe(slot) {
      m := |before|;
      JustOpened(before, slot);
    } else {
      StepKeepsSlot(e, a, slot);
      hide Step, Allowed, OpenedAt, Current;
      m := OpenSession(before, slot);
      OpenedMore(before, a, slot, m, e.sessions[slot].value);
    }
  }

  lemma JustOpened(actions: seq<Action>, slot: nat)
    requires CanRun(actions + [OpenSafe(slot)]) && slot < REGISTRY_COUNT
    ensures var all := actions + [OpenSafe(slot)];
            var e := After(all);
            Sized(e) && e.sessions[slot].Some? && OpenedAt(all, slot, |actions|, e.sessions[slot].value)
  {
    hide CanRun, After, Own, Listed;
    var all, n := actions + [OpenSafe(slot)], |actions|;
    AfterOneMore(actions, OpenSafe(slot));
    OwnNothing(slot);
    assert all[n + 1..] == [] && all[..n] == actions && all[..n + 1] == all;
    forall j | n <= j <= |all| ensures StillNormal(all, j, After(actions).normal) {
      assert j == n || j == n + 1;
    }
  }

  lemma AfterOneMore(actions: seq<Action>, a: Action)
    requires CanRun(actions + [a])
    ensures CanRun(actions) && Allowed(After(actions), a) && After(actions + [a]) == Step(After(actions), a).0
  {
    assert Before(actions + [a]) == actions;
  }

  /** A slot that is open after another action was open before, with the same base; normal entries did not change. */
  lemma StepKeepsSlot(e: Engine, a: Action, slot: nat)
    requires Current(e) && Allowed(e, a) && slot < REGISTRY_COUNT && a != OpenSafe(slot) && Step(e, a).0.sessions[slot].Some?
    ensures e.sessions[slot].Some? && Step(e, a).0.normal == e.normal && Quiet(e, a)
    ensures var s := e.sessions[slot].value;
            Step(e, a).0.sessions[slot].value == s.(log := s.log + if a.AddSafe? && a.slot == slot then [a.entry] else [])
  {
    assert e.sessions[slot].Some? ==> e.sessions[slot].value.log + [] == e.sessions[slot].value.log;
  }

  lemma OpenedMore(actions: seq<Action>, a: Action, slot: nat, m: nat, s: Session)
    requires OpenedAt(actions, slot, m, s) && a != OpenSafe(slot)
    requires CanRun(actions + [a]) && After(actions + [a]).normal == s.base && CanRun(actions) && Quiet(After(actions), a)
    ensures OpenedAt(actions + [a], slot, m, s.(log := s.log + if a.AddSafe? && a.slot == slot then [a.entry] else []))
  {
    var all := actions + [a];
    forall j | m <= j <= |all| ensures StillNormal(all, j, s.base) { StillNormalMore(actions, a, j, s.base); }
    forall j | m < j < |all| ensures Undisturbed(all, j, slot) { UndisturbedMore(actions, a, j, slot); }
    hide StillNormal, Undisturbed, CanRun, After, Own, Quiet;
    assert all[m + 1..] == actions[m + 1..] + [a];
    OwnMore(actions[m + 1..], a, slot);
  }

  lemma StillNormalMore(actions: seq<Action>, a: Action, j: nat, normal: seq<Entry<Ptr>>)
    requires j <= |actions| ==> StillNormal(actions, j, normal)
    requires CanRun(actions + [a]) && After(actions + [a]).normal == normal && j <= |actions| + 1
    ensures StillNormal(actions + [a], j, normal)
  {
    hide CanRun, After;
    var all := actions + [a];
    if j <= |actions| { assert all[..j] == actions[..j]; } else { assert all[..j] == all; }
  }

  lemma UndisturbedMore(actions: seq<Action>, a: Action, j: nat, slot: nat)
    requires j < |actions| ==> Undisturbed(actions, j, slot)
    requires CanRun(actions) && Quiet(After(actions), a) && a != OpenSafe(slot) && j <= |actions|
    ensures Undisturbed(actions + [a], j, slot)
  {
    hide CanRun, After, Quiet;
    var all := actions + [a];
    if j < |actions| { assert all[..j] == actions[..j] && all[j] == actions[j]; } else { assert all[..j] == actions; }
  }

  // ---------------------------------------------------------------- commit and abort, as maps

  /** The latest data that the entries give for a key. */
  ghost function LastOf(es: seq<Entry<Ptr>>, k: Key): Option<Ptr>
    decreases |es|
  {
    if es == [] then None
    else if es[|es| - 1].key == k then Some(es[|es| - 1].data)
    else LastOf(es[..|es| - 1], k)
  }

  /** As a map: the base, overridden by what was added. */
  lemma {:induction false} InsertAllLookup(s: seq<Entry<Ptr>>, es: seq<Entry<Ptr>>, k: Key)
    requires New(s, es)
    ensures Lookup(InsertAll(s, es), k) == if LastOf(es, k).Some? then LastOf(es, k) else Lookup(s, k)
    decreases |es|
  {
    if es != [] {
      var init, x := es[..|es| - 1], es[|es| - 1];
      assert forall j | 0 <= j < |init| :: init[..j] == es[..j] && init[j] == es[j];
      InsertAllLookup(s, init, k);
      assert es[..|es| - 1] == init;
      InsertLookup(InsertAll(s, init), x, k);
    }
  }

  /** After every run an abort closes all five sessions, and the normal entries are what they were. */
  lemma AbortCloses(actions: seq<Action>)
    requires CanRun(actions + [AbortSafe])
    ensures CanRun(actions) && After(actions + [AbortSafe]) == Engine(After(actions).normal, [None, None, None, None, None])
  {
    AfterOneMore(actions, AbortSafe);
  }

  /** What a commit installs was added behind the last abort: nothing added before an abort is ever installed. */
  lemma AbortedIsLost(actions: seq<Action>, at: nat, slot: nat, k: Key) returns (m: nat)
    requires CanRun(actions + [CommitSafe(slot)]) && CanRun(actions) && slot < REGISTRY_COUNT
    requires Sized(After(actions)) && After(actions).sessions[slot].Some?
    requires at < |actions| && actions[at] == AbortSafe
    ensures at < m < |actions| && actions[m] == OpenSafe(slot)
    ensures Lookup(After(actions + [CommitSafe(slot)]).normal, k)
         == if LastOf(Own(actions[m + 1..], slot), k).Some? then LastOf(Own(actions[m + 1..], slot), k) else Lookup(After(actions).normal, k)
  {
    m := CommitInstalls(actions, slot, k);
    assert m < at ==> Undisturbed(actions, at, slot);
  }

  /**
    A commit, as a map: what was added in the slot since its session was opened overrides the normal
    entries, and nothing else changes.
  */
  lemma CommitInstalls(actions: seq<Action>, slot: nat, k: Key) returns (m: nat)
    requires CanRun(actions + [CommitSafe(slot)]) && CanRun(actions) && slot < REGISTRY_COUNT
    requires Sized(After(actions)) && After(actions).sessions[slot].Some?
    ensures OpenedAt(actions, slot, m, After(actions).sessions[slot].value)
    ensures var own := Own(actions[m + 1..], slot);
            Lookup(After(actions + [CommitSafe(slot)]).normal, k)
              == if LastOf(own, k).Some? then LastOf(own, k) else Lookup(After(actions).normal, k)
    ensures After(actions + [CommitSafe(slot)]).sessions == [None, None, None, None, None]
  {
    var e := After(actions);
    assert slot < |e.sessions|;
    var s := e.sessions[slot].value;
    hide *;
    m := OpenSession(actions, slot);
    RunKeepsCurrent(actions);
    AfterOneMore(actions, CommitSafe(slot));
    CommitStep(e, slot);
    OpenedLog(actions, slot, m, s);
    InsertAllLookup(e.normal, s.log, k);
  }

  lemma OpenedLog(actions: seq<Action>, slot: nat, m: nat, s: Session)
    requires OpenedAt(actions, slot, m, s)
    ensures m < |actions| && s.log == Own(actions[m + 1..], slot)
  {
  }

  lemma CommitStep(e: Engine, slot: nat)
    requires Allowed(e, CommitSafe(slot)) && slot < |e.sessions| && e.sessions[slot].Some? && Current(e)
    ensures Step(e, CommitSafe(slot)).0 == Engine(InsertAll(e.normal, e.sessions[slot].value.log), [None, None, None, None, None])
    ensures REGISTRY_COUNT == 5
    ensures New(e.normal, e.sessions[slot].value.log)
  {
  }
}
