/**
  Every call can return: from wherever clients and server come to, and without any new query, there is
  a way on by which a given client gets the answer to its own query.
*/
module Returns {
  import opened Seqs
  import opened StreamBuffers
  import opened Protocol

  // ---------------------------------------------------------------- what becomes of a call

  function CallID<O, R>(c: Client<O, R>): QueryID
    requires !c.Idle?
  {
    if c.Sending? then c.query.id else c.id
  }

  predicate NoIssue<O>(steps: seq<Step<O>>) { forall i | 0 <= i < |steps| :: !steps[i].Issue? }

  /** Since `from` deliveries were made, client c was given the answer to query `id`. */
  ghost predicate Given<R>(delivered: seq<(nat, Answer<R>)>, from: nat, c: nat, id: QueryID) {
    exists i :: from <= i < |delivered| && delivered[i].0 == c && delivered[i].1.id == id
  }

  /** The client is still in the same call, or has its answer and is out of it. */
  ghost predicate Follows<S, O, R>(s: State<S, O, R>, t: State<S, O, R>, c: nat)
    requires InCall(s, c)
  {
    || (InCall(t, c) && CallID(t.clients[c]) == CallID(s.clients[c]))
    || Returned(s, t, c)
  }

  ghost predicate Returned<S, O, R>(s: State<S, O, R>, t: State<S, O, R>, c: nat)
    requires InCall(s, c)
  {
    c < |t.clients| && t.clients[c].Idle? && Given(t.delivered, |s.delivered|, c, CallID(s.clients[c]))
  }

  /** A pop of the client's own answer ends its call, a pop of any other one does not. */
  lemma PopEnds<S, O, R>(exec: Exec<S, O, R>, s: State<S, O, R>, c: nat)
    requires Enabled(s, Pop(c))
    ensures var t := Apply(exec, s, Pop(c));
            && InCall(s, c) && (s.answers[0].id == CallID(s.clients[c]) <==> Returned(s, t, c))
            && (s.answers[0].id != CallID(s.clients[c]) ==> t.clients[c] == Holding(s.clients[c].id, s.answers[0]))
  {
    var t := Apply(exec, s, Pop(c));
    if s.answers[0].id == s.clients[c].id { assert t.delivered[|s.delivered|] == (c, s.answers[0]); }
  }

  lemma StepFollows<S, O, R>(exec: Exec<S, O, R>, s: State<S, O, R>, step: Step<O>, c: nat)
    requires InCall(s, c) && Enabled(s, step) && !step.Issue?
    ensures Follows(s, Apply(exec, s, step), c)
  {
    if step.Pop? && step.client == c { PopEnds(exec, s, c); }
  }

  lemma StepKeepsGiven<S, O, R>(exec: Exec<S, O, R>, s: State<S, O, R>, step: Step<O>, c: nat)
    requires Enabled(s, step) && !step.Issue?
    ensures var t := Apply(exec, s, step);
            && |t.clients| == |s.clients| && s.delivered <= t.delivered
            && (c < |s.clients| && s.clients[c].Idle? ==> t.clients[c].Idle?)
  {
  }

  lemma {:induction false} RunKeepsGiven<S, O, R>(exec: Exec<S, O, R>, s: State<S, O, R>, steps: seq<Step<O>>, t: State<S, O, R>, c: nat)
    requires Run(exec, s, steps, t) && NoIssue(steps)
    ensures |t.clients| == |s.clients| && s.delivered <= t.delivered && (c < |s.clients| && s.clients[c].Idle? ==> t.clients[c].Idle?)
    decreases |steps|
  {
    if steps != [] {
      StepKeepsGiven(exec, s, steps[0], c);
      RunKeepsGiven(exec, Apply(exec, s, steps[0]), steps[1..], t, c);
    }
  }

  /** In a run without new queries a client stays in its call until it has its answer. */
  lemma {:induction false} RunFollows<S, O, R>(exec: Exec<S, O, R>, s: State<S, O, R>, steps: seq<Step<O>>, t: State<S, O, R>, c: nat)
    requires InCall(s, c) && Run(exec, s, steps, t) && NoIssue(steps)
    ensures Follows(s, t, c)
    decreases |steps|
  {
    if steps != [] {
      var u := Apply(exec, s, steps[0]);
      StepFollows(exec, s, steps[0], c);
      StepKeepsGiven(exec, s, steps[0], c);
      RunKeepsGiven(exec, u, steps[1..], t, c);
      hide Apply, Enabled, Run;
      if InCall(u, c) {
        assert Run(exec, u, steps[1..], t) by { RunTail(exec, s, steps, t); }
        RunFollows(exec, u, steps[1..], t, c);
      }
    }
  }

  lemma RunTail<S, O, R>(exec: Exec<S, O, R>, s: State<S, O, R>, steps: seq<Step<O>>, t: State<S, O, R>)
    requires Run(exec, s, steps, t) && steps != []
    ensures Enabled(s, steps[0]) && Run(exec, Apply(exec, s, steps[0]), steps[1..], t)
  {
  }

  lemma RunOne<S, O, R>(exec: Exec<S, O, R>, s: State<S, O, R>, step: Step<O>)
    requires Enabled(s, step) && !step.Issue?
    ensures Run(exec, s, [step], Apply(exec, s, step)) && NoIssue([step])
  {
    assert [step][1..] == [];
  }

  lemma {:induction false} RunJoin<S, O, R>(exec: Exec<S, O, R>, s: State<S, O, R>, a: seq<Step<O>>, t: State<S, O, R>, b: seq<Step<O>>, u: State<S, O, R>)
    requires Run(exec, s, a, t) && Run(exec, t, b, u) && NoIssue(a) && NoIssue(b)
    ensures Run(exec, s, a + b, u) && NoIssue(a + b)
    decreases |a|
  {
    if a == [] {
      assert a + b == b;
    } else {
      RunJoin(exec, Apply(exec, s, a[0]), a[1..], t, b, u);
      assert (a + b)[1..] == a[1..] + b;
    }
  }

  // ---------------------------------------------------------------- the work that is left

  ghost function Load<O, R>(c: Client<O, R>): nat { if c.Sending? then 5 else if c.Holding? then 3 else 0 }

  ghost function Loads<O, R>(cs: seq<Client<O, R>>): nat { if cs == [] then 0 else Load(cs[0]) + Loads(cs[1..]) }

  lemma {:induction false} LoadsUpdate<O, R>(cs: seq<Client<O, R>>, c: nat, x: Client<O, R>)
    requires c < |cs|
    ensures Loads(cs[c := x]) + Load(cs[c]) == Loads(cs) + Load(x)
  {
    hide Load;
    if c == 0 {
      assert cs[c := x][1..] == cs[1..];
    } else {
      LoadsUpdate(cs[1..], c - 1, x);
      assert cs[c := x][1..] == cs[1..][c - 1 := x];
    }
  }

  /** Each query weighs less the further it has come; an answer in foreign hands weighs more than one in the buffer. */
  ghost function Work<S, O, R>(s: State<S, O, R>): nat {
    4 * |s.requests| + (if s.busy.Some? then 3 else 0) + 2 * |s.answers| + Loads(s.clients)
  }

  /** Every step lessens the work, but for a pop of a foreign answer. */
  lemma StepWorks<S, O, R>(exec: Exec<S, O, R>, s: State<S, O, R>, step: Step<O>)
    requires Enabled(s, step) && !step.Issue?
    ensures Work(Apply(exec, s, step)) == Work(s) + if step.Pop? then if s.answers[0].id == s.clients[step.client].id then -2 else 1 else -1
  {
    var t := Apply(exec, s, step);
    if !step.Handle? && !step.Reply? { LoadsUpdate(s.clients, step.client, t.clients[step.client]); }
  }

  // ---------------------------------------------------------------- a way on

  /** From s the steps lead to t without a new query, and less work is left there. */
  ghost predicate Advances<S, O, R>(exec: Exec<S, O, R>, s: State<S, O, R>, steps: seq<Step<O>>, t: State<S, O, R>) {
    Run(exec, s, steps, t) && NoIssue(steps) && Work(t) < Work(s)
  }

  lemma OneStep<S, O, R>(exec: Exec<S, O, R>, s: State<S, O, R>, step: Step<O>) returns (steps: seq<Step<O>>, t: State<S, O, R>)
    requires Enabled(s, step) && !step.Issue? && (step.Pop? ==> s.answers[0].id == s.clients[step.client].id)
    ensures Advances(exec, s, steps, t)
  {
    steps, t := [step], Apply(exec, s, step);
    RunOne(exec, s, step);
    StepWorks(exec, s, step);
  }

  /** A foreign answer is taken from the front and put back behind the others. */
  lemma TurnOver<S, O, R>(exec: Exec<S, O, R>, s: State<S, O, R>, v: nat) returns (t: State<S, O, R>)
    requires v < |s.clients| && s.clients[v].Waiting? && 0 < |s.answers| <= CAPACITY && s.answers[0].id != s.clients[v].id
    ensures Run(exec, s, [Pop(v), PushBack(v)], t) && NoIssue<O>([Pop(v), PushBack(v)])
    ensures t == s.(answers := s.answers[1..] + [s.answers[0]]) && Work(t) == Work(s)
  {
    var u := Apply(exec, s, Pop(v));
    t := Apply(exec, u, PushBack(v));
    StepWorks(exec, s, Pop(v));
    StepWorks(exec, u, PushBack(v));
    RunOne(exec, s, Pop(v));
    RunOne(exec, u, PushBack(v));
    RunJoin(exec, s, [Pop(v)], u, [PushBack(v)], t);
    var pop: seq<Step<O>> := [Pop(v)];
    assert pop + [PushBack(v)] == [Pop(v), PushBack(v)];
    assert t.clients == s.clients;
  }

  /** A client whose answer is in the buffer turns the buffer over until that answer is in front. */
  lemma {:induction false} Fetch<S, O, R>(exec: Exec<S, O, R>, s: State<S, O, R>, w: nat, j: nat) returns (steps: seq<Step<O>>, t: State<S, O, R>)
    requires w < |s.clients| && s.clients[w].Waiting? && j < |s.answers| <= CAPACITY && s.answers[j].id == s.clients[w].id
    ensures Advances(exec, s, steps, t)
    decreases j
  {
    if s.answers[0].id == s.clients[w].id {
      steps, t := OneStep(exec, s, Pop(w));
    } else {
      var u := TurnOver(exec, s, w);
      steps, t := Fetch(exec, u, w, j - 1);
      RunJoin(exec, s, [Pop(w), PushBack(w)], u, steps, t);
      steps := [Pop(w), PushBack(w)] + steps;
    }
  }

  /** The first answer belongs to a client that still waits for it. */
  lemma Owner<S, O, R>(exec: Exec<S, O, R>, db0: S, s: State<S, O, R>) returns (w: nat)
    requires Invariant(exec, db0, s) && s.answers != []
    ensures w < |s.clients| && Expects(s.clients[w]) == 1 && s.clients[w].id == s.answers[0].id
  {
    var all := HandledAnswers(exec, db0, s);
    var a := s.answers[0];
    hide Invariant, Everywhere;
    FrontIsSerial(s, all);
    var k :| 0 <= k < |all| && all[k] == a;
    assert OwnedAt(s, s.log[k].id, s.log[k].from);
    forall i | 0 <= i < |s.delivered| ensures s.delivered[i].1.id != a.id { FrontIsNew(s, all, i); }
    w := s.log[k].from;
  }

  lemma HandledAnswers<S, O, R>(exec: Exec<S, O, R>, db0: S, s: State<S, O, R>) returns (all: seq<Answer<R>>)
    requires Invariant(exec, db0, s)
    ensures Owned(s) && Everywhere(s) == multiset(all) && |all| <= |s.log|
    ensures forall k | 0 <= k < |all| :: all[k].id == s.log[k].id
    ensures forall k, m | 0 <= k < m < |all| :: all[k].id != all[m].id
  {
    all := Serial(exec, db0, s.log[..Handled(s)]).1;
    SerialLength(exec, db0, s.log[..Handled(s)]);
    hide Everywhere, Serial, Owned, Senders, Waiters, OwnAnswers;
    assert forall k | 0 <= k < |all| :: s.log[..Handled(s)][k] == s.log[k];
  }

  lemma FrontIsSerial<S, O, R>(s: State<S, O, R>, all: seq<Answer<R>>)
    requires Everywhere(s) == multiset(all) && s.answers != []
    ensures s.answers[0] in all
  {
    EverywhereIs(s);
    hide Everywhere;
    SumHasFirst(multiset(s.answers), BusyWith(s.busy), Held(s.clients), multiset(Handed(s.delivered)), s.answers[0]);
    assert s.answers[0] in multiset(all);
  }

  lemma SumHasFirst<T>(a: multiset<T>, b: multiset<T>, c: multiset<T>, d: multiset<T>, x: T)
    requires x in a
    ensures x in Sum(a, b, c, d) && (x in d ==> Sum(a, b, c, d)[x] >= 2)
  {
  }

  /** What is in the buffer has not been delivered. */
  lemma FrontIsNew<S, O, R>(s: State<S, O, R>, all: seq<Answer<R>>, i: nat)
    requires Everywhere(s) == multiset(all) && s.answers != [] && i < |s.delivered|
    requires forall k, m | 0 <= k < m < |all| :: all[k].id != all[m].id
    ensures s.delivered[i].1.id != s.answers[0].id
  {
    var a := s.answers[0];
    FrontIsSerial(s, all);
    var m := InSerial(s, all, i);
    if s.delivered[i].1.id == a.id {
      var k :| 0 <= k < |all| && all[k] == a;
      assert k == m;
      assert Handed(s.delivered)[i] == a;
      EverywhereIs(s);
      SumHasFirst(multiset(s.answers), BusyWith(s.busy), Held(s.clients), multiset(Handed(s.delivered)), a);
      AtMostOnce(all, a);
      assert false;
    }
  }

  /** The buffer is full, and the owner of its first answer holds a foreign one that it can not put back. */
  lemma MakeRoom<S, O, R>(exec: Exec<S, O, R>, s: State<S, O, R>, w: nat, v: nat) returns (steps: seq<Step<O>>, t: State<S, O, R>)
    requires w < |s.clients| && s.clients[w].Holding? && v < |s.clients| && s.clients[v].Waiting?
    requires |s.answers| == CAPACITY && s.answers[0].id == s.clients[w].id
    ensures Advances(exec, s, steps, t)
  {
    if s.answers[0].id == s.clients[v].id {
      steps, t := OneStep(exec, s, Pop(v));
    } else {
      var a := TurnOver(exec, s, v);
      if a.answers[0].id == a.clients[v].id {
        steps, t := OneStep(exec, a, Pop(v));
      } else {
        steps, t := TakeTurns(exec, a, w, v);
      }
      RunJoin(exec, s, [Pop(v), PushBack(v)], a, steps, t);
      steps := [Pop(v), PushBack(v)] + steps;
    }
  }

  /** Client v takes the first answer, so that client w can put its foreign one back and wait for its own, the last one. */
  lemma TakeTurns<S, O, R>(exec: Exec<S, O, R>, s: State<S, O, R>, w: nat, v: nat) returns (steps: seq<Step<O>>, t: State<S, O, R>)
    requires w < |s.clients| && s.clients[w].Holding? && v < |s.clients| && s.clients[v].Waiting?
    requires |s.answers| == CAPACITY && s.answers[CAPACITY - 1].id == s.clients[w].id && s.answers[0].id != s.clients[v].id
    ensures Advances(exec, s, steps, t)
  {
    var a := Apply(exec, s, Pop(v));
    var b := Apply(exec, a, PushBack(w));
    StepWorks(exec, s, Pop(v));
    StepWorks(exec, a, PushBack(w));
    RunOne(exec, s, Pop(v));
    RunOne(exec, a, PushBack(w));
    RunJoin(exec, s, [Pop(v)], a, [PushBack(w)], b);
    assert b.answers[CAPACITY - 2] == s.answers[CAPACITY - 1];
    steps, t := Fetch(exec, b, w, CAPACITY - 2);
    RunJoin(exec, s, [Pop(v)] + [PushBack(w)], b, steps, t);
    steps := [Pop(v)] + [PushBack(w)] + steps;
  }

  /** As long as a client is in a call there is a way on to less work. */
  lemma Progress<S, O, R>(exec: Exec<S, O, R>, db0: S, s: State<S, O, R>, c: nat) returns (steps: seq<Step<O>>, t: State<S, O, R>)
    requires Invariant(exec, db0, s) && InCall(s, c)
    ensures Advances(exec, s, steps, t)
  {
    if s.busy.None? && HasSegment(s.requests) {
      steps, t := OneStep(exec, s, Handle);
    } else if s.busy.Some? && HasRoom(s.answers) {
      steps, t := OneStep(exec, s, Reply);
    } else if x: nat :| x < |s.clients| && s.clients[x].Sending? && HasRoom(s.requests) {
      steps, t := OneStep(exec, s, Push(x));
    } else if x: nat :| x < |s.clients| && s.clients[x].Holding? && HasRoom(s.answers) {
      steps, t := OneStep(exec, s, PushBack(x));
    } else {
      SomeAnswer(exec, db0, s, c);
      var w := Owner(exec, db0, s);
      if s.clients[w].Waiting? {
        steps, t := OneStep(exec, s, Pop(w));
      } else {
        var v := SomeWaiter(exec, db0, s);
        steps, t := MakeRoom(exec, s, w, v);
      }
    }
  }

  /** Where nothing else can be done, an answer is waiting. */
  lemma SomeAnswer<S, O, R>(exec: Exec<S, O, R>, db0: S, s: State<S, O, R>, c: nat)
    requires Invariant(exec, db0, s) && InCall(s, c)
    requires !(s.busy.None? && HasSegment(s.requests)) && !(s.busy.Some? && HasRoom(s.answers))
    requires forall x | 0 <= x < |s.clients| && s.clients[x].Sending? :: !HasRoom(s.requests)
    requires forall x | 0 <= x < |s.clients| && s.clients[x].Holding? :: !HasRoom(s.answers)
    ensures s.answers != []
  {
    UnderWay(exec, db0, s);
    HeldCount(s.clients);
    if s.answers == [] {
      assert forall x | 0 <= x < |s.clients| :: !s.clients[x].Holding? && !s.clients[x].Sending?;
      NoneHeld(s.clients);
    }
  }

  lemma {:induction false} NoneHeld<O, R>(cs: seq<Client<O, R>>)
    requires forall x | 0 <= x < |cs| :: !cs[x].Holding?
    ensures Held(cs) == multiset{}
  {
    if cs != [] { NoneHeld(cs[1..]); }
  }

  /** As long as there is an answer in the buffer, some client does not hold one. */
  lemma SomeWaiter<S, O, R>(exec: Exec<S, O, R>, db0: S, s: State<S, O, R>) returns (v: nat)
    requires Invariant(exec, db0, s) && s.answers != []
    ensures v < |s.clients| && s.clients[v].Waiting?
  {
    UnderWay(exec, db0, s);
    HeldCount(s.clients);
    v :| v < |s.clients| && s.clients[v].Waiting?;
  }

  // ---------------------------------------------------------------- every call can return

  /** From any state within the invariant, a client in a call gets its own answer by some run without new queries. */
  lemma {:induction false} CallReturns<S, O, R>(exec: Exec<S, O, R>, db0: S, s: State<S, O, R>, c: nat) returns (steps: seq<Step<O>>, t: State<S, O, R>)
    requires Invariant(exec, db0, s) && InCall(s, c)
    ensures Run(exec, s, steps, t) && NoIssue(steps) && Returned(s, t, c)
    decreases Work(s)
  {
    var u;
    steps, u := Progress(exec, db0, s, c);
    RunFollows(exec, s, steps, u, c);
    RunKeeps(exec, db0, s, steps, u);
    RunKeepsGiven(exec, s, steps, u, c);
    hide Invariant, Run, Work;
    if Returned(s, u, c) {
      t := u;
    } else {
      var rest;
      rest, t := CallReturns(exec, db0, u, c);
      RunJoin(exec, s, steps, u, rest, t);
      steps := steps + rest;
    }
  }

  /** Whatever clients and server did so far: each client in a call can still get its own, serial, answer. */
  lemma EveryCallCanReturn<S, O, R>(exec: Exec<S, O, R>, db: S, n: nat, before: seq<Step<O>>, s: State<S, O, R>, c: nat)
    returns (steps: seq<Step<O>>, t: State<S, O, R>, i: nat)
    requires Run(exec, Initial<S, O, R>(db, n), before, s) && InCall(s, c)
    ensures Run(exec, s, steps, t) && NoIssue(steps) && c < |t.clients| && t.clients[c].Idle?
    ensures |s.delivered| <= i < |t.delivered| && t.delivered[i].0 == c && t.delivered[i].1.id == CallID(s.clients[c])
    ensures WellAnswered(exec, db, t, i)
  {
    InitialHolds(exec, db, n);
    RunKeeps(exec, db, Initial<S, O, R>(db, n), before, s);
    steps, t := CallReturns(exec, db, s, c);
    RunKeeps(exec, db, s, steps, t);
    hide Invariant, Run, WellAnswered;
    InvariantSays(exec, db, t);
    i :| |s.delivered| <= i < |t.delivered| && t.delivered[i].0 == c && t.delivered[i].1.id == CallID(s.clients[c]);
  }
}
