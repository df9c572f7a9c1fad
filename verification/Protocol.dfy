/**
  Clients and the database server over two bounded buffers.  A client pushes its query, then pops
  answers until its own comes by, pushing foreign ones back; the server handles one query at a time.
  Every interleaving of these steps is a run.
*/
module Protocol {
  import opened Seqs
  import opened StreamBuffers

  type QueryID = nat

  /** What a client puts into the request buffer. The field `from` tells who: no step looks at it. */
  datatype Query<O> = Query(id: QueryID, op: O, from: nat)

  datatype Answer<R> = Answer(id: QueryID, result: R)

  datatype Client<O, R> =
    | Idle                                       // between calls
    | Sending(query: Query<O>)                   // about to push the query
    | Waiting(id: QueryID)                       // about to pop
    | Holding(id: QueryID, foreign: Answer<R>)   // about to push a foreign answer back

  /** The database as the server sees it: a state, and what an operation makes of it. */
  type Exec<!S, !O, !R> = (S, O) -> (S, R)

  datatype State<S, O, R> = State(
    requests: seq<Query<O>>,
    answers: seq<Answer<R>>,
    busy: Option<Answer<R>>,                     // the answer the server is about to push
    db: S,
    clients: seq<Client<O, R>>,
    log: seq<Query<O>>,                          // history: the queries in the order they were enqueued
    delivered: seq<(nat, Answer<R>)>,            // history: what was returned to which client
    used: set<QueryID>)                          // history: the IDs drawn so far

  datatype Step<O> =
    | Issue(client: nat, id: QueryID, op: O)
    | Push(client: nat)
    | Handle
    | Reply
    | Pop(client: nat)
    | PushBack(client: nat)

  function Initial<S, O, R>(db: S, clients: nat): State<S, O, R> {
    State([], [], None, db, seq(clients, i => Idle), [], [], {})
  }

  /** A push waits for room, a pop for an element; query IDs are never drawn twice. */
  predicate Enabled<S, O, R>(s: State<S, O, R>, step: Step<O>) {
    match step
    case Issue(c, id, _) => c < |s.clients| && s.clients[c].Idle? && id !in s.used
    case Push(c) => c < |s.clients| && s.clients[c].Sending? && HasRoom(s.requests)
    case Handle => s.busy.None? && HasSegment(s.requests)
    case Reply => s.busy.Some? && HasRoom(s.answers)
    case Pop(c) => c < |s.clients| && s.clients[c].Waiting? && HasSegment(s.answers)
    case PushBack(c) => c < |s.clients| && s.clients[c].Holding? && HasRoom(s.answers)
  }

  function Apply<S, O, R>(exec: Exec<S, O, R>, s: State<S, O, R>, step: Step<O>): State<S, O, R>
    requires Enabled(s, step)
  {
    match step
    case Issue(c, id, op) => s.(clients := s.clients[c := Sending(Query(id, op, c))], used := s.used + {id})
    case Push(c) =>
      var q := s.clients[c].query;
      s.(requests := Enqueued(s.requests, q), clients := s.clients[c := Waiting(q.id)], log := s.log + [q])
    case Handle =>
      var (q, requests) := Dequeued(s.requests);
      var (db, r) := exec(s.db, q.op);
      s.(requests := requests, busy := Some(Answer(q.id, r)), db := db)
    case Reply => s.(answers := Enqueued(s.answers, s.busy.value), busy := None)
    case Pop(c) =>
      var (a, answers) := Dequeued(s.answers);
      if a.id == s.clients[c].id
        then s.(answers := answers, clients := s.clients[c := Idle], delivered := s.delivered + [(c, a)])
        else s.(answers := answers, clients := s.clients[c := Holding(s.clients[c].id, a)])
    case PushBack(c) => s.(answers := Enqueued(s.answers, s.clients[c].foreign), clients := s.clients[c := Waiting(s.clients[c].id)])
  }

  // ---------------------------------------------------------------- what should come out

  /** The answers of a single user who runs the queries one after another, and the database then. */
  function Serial<S, O, R>(exec: Exec<S, O, R>, db: S, qs: seq<Query<O>>): (S, seq<Answer<R>>)
    decreases |qs|
  {
    if qs == [] then (db, [])
    else
      var (d, answers) := Serial(exec, db, qs[..|qs| - 1]);
      var (d', r) := exec(d, qs[|qs| - 1].op);
      (d', answers + [Answer(qs[|qs| - 1].id, r)])
  }

  lemma {:induction false} SerialLength<S, O, R>(exec: Exec<S, O, R>, db: S, qs: seq<Query<O>>)
    ensures |Serial(exec, db, qs).1| == |qs|
    ensures forall k | 0 <= k < |qs| :: Serial(exec, db, qs).1[k].id == qs[k].id
    decreases |qs|
  {
    if qs != [] { SerialLength(exec, db, qs[..|qs| - 1]); }
  }

  ghost function HeldBy<O, R>(c: Client<O, R>): multiset<Answer<R>> {
    if c.Holding? then multiset{c.foreign} else multiset{}
  }

  /** The answers in the hands of clients. */
  ghost function Held<O, R>(cs: seq<Client<O, R>>): multiset<Answer<R>> {
    if cs == [] then multiset{} else HeldBy(cs[0]) + Held(cs[1..])
  }

  ghost function Expects<O, R>(c: Client<O, R>): nat { if c.Waiting? || c.Holding? then 1 else 0 }

  /** How many clients have a query under way. */
  ghost function Expecting<O, R>(cs: seq<Client<O, R>>): nat {
    if cs == [] then 0 else Expects(cs[0]) + Expecting(cs[1..])
  }

  ghost function Handed<R>(d: seq<(nat, Answer<R>)>): seq<Answer<R>> { seq(|d|, i requires 0 <= i < |d| => d[i].1) }

  /** Every answer that exists, wherever it is. */
  ghost function Everywhere<S, O, R>(s: State<S, O, R>): multiset<Answer<R>> {
    Sum(multiset(s.answers), BusyWith(s.busy), Held(s.clients), multiset(Handed(s.delivered)))
  }

  ghost function BusyWith<R>(b: Option<Answer<R>>): multiset<Answer<R>> { if b.Some? then multiset{b.value} else multiset{} }

  ghost function Sum<T>(a: multiset<T>, b: multiset<T>, c: multiset<T>, d: multiset<T>): multiset<T> { a + b + c + d }

  /** How many of the queries the server has handled. */
  ghost function Handled<S, O, R>(s: State<S, O, R>): int { |s.log| - |s.requests| }

  /** Queries wait in the order they came; the handled ones have exactly their serial answers, each once. */
  ghost predicate Faithful<S, O, R>(exec: Exec<S, O, R>, db0: S, s: State<S, O, R>) {
    && |s.requests| <= |s.log| && s.requests == s.log[Handled(s)..]
    && s.db == Serial(exec, db0, s.log[..Handled(s)]).0
    && Everywhere(s) == multiset(Serial(exec, db0, s.log[..Handled(s)]).1)
  }

  /** No ID was enqueued twice. */
  ghost predicate UniqueLog<O>(log: seq<Query<O>>, used: set<QueryID>) {
    && (forall i, j | 0 <= i < j < |log| :: log[i].id != log[j].id)
    && (forall k | 0 <= k < |log| :: log[k].id in used)
  }

  /** The query (id, client) has been enqueued. */
  ghost predicate Logged<O>(log: seq<Query<O>>, id: QueryID, client: nat) {
    exists k :: 0 <= k < |log| && log[k].id == id && log[k].from == client
  }

  ghost predicate Absent<O>(log: seq<Query<O>>, id: QueryID) { forall k | 0 <= k < |log| :: log[k].id != id }

  /** What a client is about to send is its own and new. */
  ghost predicate Senders<O, R>(cs: seq<Client<O, R>>, log: seq<Query<O>>, used: set<QueryID>) {
    && (forall c | 0 <= c < |cs| && cs[c].Sending? ::
          cs[c].query.from == c && cs[c].query.id in used && Absent(log, cs[c].query.id))
    && (forall c, e | 0 <= c < e < |cs| && cs[c].Sending? && cs[e].Sending? :: cs[c].query.id != cs[e].query.id)
  }

  /** What a client waits for it has enqueued. */
  ghost predicate Waiters<O, R>(cs: seq<Client<O, R>>, log: seq<Query<O>>) {
    forall c | 0 <= c < |cs| && Expects(cs[c]) == 1 :: Logged(log, cs[c].id, c)
  }

  /** What a client was given it had enqueued. */
  ghost predicate OwnAnswers<O, R>(delivered: seq<(nat, Answer<R>)>, log: seq<Query<O>>) {
    forall i | 0 <= i < |delivered| :: Logged(log, delivered[i].1.id, delivered[i].0)
  }

  /** Every client that waits has one query of its own under way, and no ID occurs twice. */
  ghost predicate Accounted<S, O, R>(s: State<S, O, R>) {
    && UniqueLog(s.log, s.used) && Senders(s.clients, s.log, s.used) && Waiters(s.clients, s.log)
    && OwnAnswers(s.delivered, s.log) && |s.log| == |s.delivered| + Expecting(s.clients)
  }

  /** Every enqueued query has been answered to its client, or its client still waits for it. */
  ghost predicate Owned<S, O, R>(s: State<S, O, R>) { forall k | 0 <= k < |s.log| :: OwnedAt(s, s.log[k].id, s.log[k].from) }

  ghost predicate OwnedAt<S, O, R>(s: State<S, O, R>, id: QueryID, c: nat) {
    || (exists i :: 0 <= i < |s.delivered| && s.delivered[i].1.id == id)
    || (c < |s.clients| && Expects(s.clients[c]) == 1 && s.clients[c].id == id)
  }

  ghost predicate Invariant<S, O, R>(exec: Exec<S, O, R>, db0: S, s: State<S, O, R>) {
    Faithful(exec, db0, s) && Accounted(s) && Owned(s) && |s.requests| <= CAPACITY && |s.answers| <= CAPACITY
  }

  // ---------------------------------------------------------------- clients one at a time

  lemma Swap<T>(a: multiset<T>, b: multiset<T>, c: multiset<T>)
    ensures (a + b) + c == (c + b) + a
  {
  }

  lemma {:induction false} HeldUpdate<O, R>(cs: seq<Client<O, R>>, c: nat, x: Client<O, R>)
    requires c < |cs|
    ensures Held(cs[c := x]) + HeldBy(cs[c]) == Held(cs) + HeldBy(x)
  {
    hide HeldBy;
    var cs' := cs[c := x];
    if c == 0 {
      assert cs'[1..] == cs[1..];
      Swap(HeldBy(x), Held(cs[1..]), HeldBy(cs[0]));
    } else {
      HeldUpdate(cs[1..], c - 1, x);
      assert cs'[1..] == cs[1..][c - 1 := x];
      Regroup(HeldBy(cs[0]), Held(cs'[1..]), HeldBy(cs[c]), Held(cs[1..]), HeldBy(x));
    }
  }

  lemma Regroup<T>(a: multiset<T>, b: multiset<T>, c: multiset<T>, d: multiset<T>, e: multiset<T>)
    requires b + c == d + e
    ensures (a + b) + c == (a + d) + e
  {
    assert (a + b) + c == a + (b + c);
    assert (a + d) + e == a + (d + e);
  }

  lemma {:induction false} ExpectingUpdate<O, R>(cs: seq<Client<O, R>>, c: nat, x: Client<O, R>)
    requires c < |cs|
    ensures Expecting(cs[c := x]) + Expects(cs[c]) == Expecting(cs) + Expects(x)
  {
    hide Expects;
    if c == 0 {
      assert cs[c := x][1..] == cs[1..];
    } else {
      ExpectingUpdate(cs[1..], c - 1, x);
      assert cs[c := x][1..] == cs[1..][c - 1 := x];
    }
  }

  lemma {:induction false} HeldInitial<O, R>(cs: seq<Client<O, R>>)
    requires forall c | 0 <= c < |cs| :: cs[c].Idle?
    ensures Held(cs) == multiset{} && Expecting(cs) == 0
  {
    if cs != [] { HeldInitial(cs[1..]); }
  }

  lemma InitialHolds<S, O, R>(exec: Exec<S, O, R>, db: S, n: nat)
    ensures Invariant(exec, db, Initial<S, O, R>(db, n))
  {
    HeldInitial(Initial<S, O, R>(db, n).clients);
  }

  // ---------------------------------------------------------------- every step keeps the invariant

  /** A client that holds as much as before. */
  lemma SameHeld<O, R>(cs: seq<Client<O, R>>, c: nat, x: Client<O, R>)
    requires c < |cs| && HeldBy(x) == HeldBy(cs[c])
    ensures Held(cs[c := x]) == Held(cs)
  {
    HeldUpdate(cs, c, x);
    assert (Held(cs[c := x]) + HeldBy(x)) - HeldBy(x) == (Held(cs) + HeldBy(x)) - HeldBy(x);
    Cancel(Held(cs[c := x]), HeldBy(x));
    Cancel(Held(cs), HeldBy(x));
  }

  lemma Cancel<T>(a: multiset<T>, b: multiset<T>)
    ensures (a + b) - b == a
  {
  }

  lemma PushFaithful<S, O, R>(exec: Exec<S, O, R>, db0: S, s: State<S, O, R>, c: nat)
    requires Faithful(exec, db0, s) && Enabled(s, Push(c))
    ensures Faithful(exec, db0, Apply(exec, s, Push(c)))
  {
    var q, t := s.clients[c].query, Apply(exec, s, Push(c));
    var w: Client<O, R> := Waiting(q.id);
    assert t == s.(requests := s.requests + [q], clients := s.clients[c := w], log := s.log + [q]);
    assert HeldBy(s.clients[c]) == HeldBy(w) == multiset{};
    PushedOrder(s.requests, s.log, q, Handled(s));
    assert Handled(t) == Handled(s);
    EverywhereIs(s);
    EverywhereIs(t);
    hide Everywhere, Serial, Sum, Held, HeldBy, Handed, BusyWith, Apply, Enabled;
    SameHeld(s.clients, c, w);
  }

  lemma PushedOrder<O>(requests: seq<Query<O>>, log: seq<Query<O>>, q: Query<O>, h: int)
    requires 0 <= h <= |log| && requests == log[h..]
    ensures (log + [q])[..h] == log[..h] && (log + [q])[h..] == requests + [q]
  {
  }

  lemma SerialMore<S, O, R>(exec: Exec<S, O, R>, db0: S, log: seq<Query<O>>, h: nat)
    requires h < |log|
    ensures var (d, answers) := Serial(exec, db0, log[..h]); var (d', r) := exec(d, log[h].op);
            Serial(exec, db0, log[..h + 1]) == (d', answers + [Answer(log[h].id, r)])
  {
    assert log[..h + 1][..h] == log[..h];
  }

  lemma HandleFaithful<S, O, R>(exec: Exec<S, O, R>, db0: S, s: State<S, O, R>)
    requires Faithful(exec, db0, s) && s.busy.None? && s.requests != []
    ensures Faithful(exec, db0, Apply(exec, s, Handle))
  {
    var h, t := Handled(s), Apply(exec, s, Handle);
    assert s.requests[0] == s.log[h] && s.requests[1..] == s.log[h + 1..] && Handled(t) == h + 1;
    SerialMore(exec, db0, s.log, h);
    assert BusyWith(s.busy) == multiset{} && BusyWith(t.busy) == multiset{t.busy.value};
    MoveIn(multiset(s.answers), Held(s.clients), multiset(Handed(s.delivered)), t.busy.value);
    EverywhereIs(s);
    EverywhereIs(t);
    Snoc(Serial(exec, db0, s.log[..h]).1, t.busy.value);
    hide Everywhere, Serial, Sum, Held, Handed, BusyWith;
  }

  lemma MoveIn<T>(a: multiset<T>, c: multiset<T>, d: multiset<T>, x: T)
    ensures Sum(a, multiset{x}, c, d) == Sum(a, multiset{}, c, d) + multiset{x}
  {
  }

  lemma MoveOut<T>(a: multiset<T>, c: multiset<T>, d: multiset<T>, x: T)
    ensures Sum(a + multiset{x}, multiset{}, c, d) == Sum(a, multiset{x}, c, d)
  {
  }

  lemma MoveAcross<T>(a: multiset<T>, b: multiset<T>, c: multiset<T>, d: multiset<T>, x: T)
    ensures Sum(a, b, c, d + multiset{x}) == Sum(a + multiset{x}, b, c, d) == Sum(a, b, c + multiset{x}, d)
  {
  }

  lemma TakeAnswer<R>(answers: seq<Answer<R>>)
    requires answers != []
    ensures multiset(answers) == multiset(answers[1..]) + multiset{answers[0]}
  {
    assert answers == [answers[0]] + answers[1..];
  }

  lemma Snoc<T>(s: seq<T>, x: T)
    ensures multiset(s + [x]) == multiset(s) + multiset{x}
  {
  }

  /** Moving an answer from one place to another changes nothing that Faithful looks at. */
  lemma MovedFaithful<S, O, R>(exec: Exec<S, O, R>, db0: S, s: State<S, O, R>, t: State<S, O, R>)
    requires Faithful(exec, db0, s) && t.requests == s.requests && t.log == s.log && t.db == s.db
    requires Everywhere(t) == Everywhere(s)
    ensures Faithful(exec, db0, t)
  {
    hide Everywhere;
  }

  lemma EverywhereIs<S, O, R>(s: State<S, O, R>)
    ensures Everywhere(s) == Sum(multiset(s.answers), BusyWith(s.busy), Held(s.clients), multiset(Handed(s.delivered)))
  {
  }

  lemma ReplyFaithful<S, O, R>(exec: Exec<S, O, R>, db0: S, s: State<S, O, R>)
    requires Faithful(exec, db0, s) && Enabled(s, Reply)
    ensures Faithful(exec, db0, Apply(exec, s, Reply))
  {
    var t := Apply(exec, s, Reply);
    assert BusyWith(s.busy) == multiset{s.busy.value} && BusyWith(t.busy) == multiset{};
    assert t == s.(answers := s.answers + [s.busy.value], busy := None);
    hide *;
    MoveOut(multiset(s.answers), Held(s.clients), multiset(Handed(s.delivered)), s.busy.value);
    Snoc(s.answers, s.busy.value);
    EverywhereIs(s);
    EverywhereIs(t);
    MovedFaithful(exec, db0, s, t);
  }

  lemma HandedMore<R>(d: seq<(nat, Answer<R>)>, c: nat, x: Answer<R>)
    ensures Handed(d + [(c, x)]) == Handed(d) + [x]
  {
  }

  lemma DeliverFaithful<S, O, R>(exec: Exec<S, O, R>, db0: S, s: State<S, O, R>, c: nat)
    requires Faithful(exec, db0, s) && Enabled(s, Pop(c)) && s.answers[0].id == s.clients[c].id
    ensures Faithful(exec, db0, Apply(exec, s, Pop(c)))
  {
    hide Faithful;
    var x, t := s.answers[0], Apply(exec, s, Pop(c));
    assert t == s.(answers := s.answers[1..], clients := s.clients[c := Idle], delivered := s.delivered + [(c, x)]);
    assert HeldBy(s.clients[c]) == HeldBy<O, R>(Idle) == multiset{};
    assert t.delivered == s.delivered + [(c, x)];
    HandedMore(s.delivered, c, x);
    hide *;
    SameHeld(s.clients, c, Idle);
    TakeAnswer(s.answers);
    Snoc(Handed(s.delivered), x);
    MoveAcross(multiset(s.answers[1..]), BusyWith(s.busy), Held(s.clients), multiset(Handed(s.delivered)), x);
    EverywhereIs(s);
    EverywhereIs(t);
    MovedFaithful(exec, db0, s, t);
  }

  lemma HoldFaithful<S, O, R>(exec: Exec<S, O, R>, db0: S, s: State<S, O, R>, c: nat)
    requires Faithful(exec, db0, s) && Enabled(s, Pop(c)) && s.answers[0].id != s.clients[c].id
    ensures Faithful(exec, db0, Apply(exec, s, Pop(c)))
  {
    var x, t := s.answers[0], Apply(exec, s, Pop(c));
    var h: Client<O, R> := Holding(s.clients[c].id, x);
    assert t == s.(answers := s.answers[1..], clients := s.clients[c := h]);
    assert HeldBy(s.clients[c]) == multiset{} && HeldBy(h) == multiset{x};
    hide *;
    HeldMore(s.clients, c, h);
    TakeAnswer(s.answers);
    MoveAcross(multiset(s.answers[1..]), BusyWith(s.busy), Held(s.clients), multiset(Handed(s.delivered)), x);
    EverywhereIs(s);
    EverywhereIs(t);
    MovedFaithful(exec, db0, s, t);
  }

  /** A client takes an answer into its hands. */
  lemma HeldMore<O, R>(cs: seq<Client<O, R>>, c: nat, x: Client<O, R>)
    requires c < |cs| && HeldBy(cs[c]) == multiset{}
    ensures Held(cs[c := x]) == Held(cs) + HeldBy(x)
  {
    HeldUpdate(cs, c, x);
    assert Held(cs[c := x]) + multiset{} == Held(cs[c := x]);
  }

  lemma PushBackFaithful<S, O, R>(exec: Exec<S, O, R>, db0: S, s: State<S, O, R>, c: nat)
    requires Faithful(exec, db0, s) && Enabled(s, PushBack(c))
    ensures Faithful(exec, db0, Apply(exec, s, PushBack(c)))
  {
    var x, w, t := s.clients[c].foreign, Waiting(s.clients[c].id), Apply(exec, s, PushBack(c));
    var cs' := s.clients[c := w];
    assert t == s.(answers := s.answers + [x], clients := cs');
    assert HeldBy(cs'[c]) == multiset{} && HeldBy(s.clients[c]) == multiset{x};
    assert cs'[c := s.clients[c]] == s.clients;
    hide *;
    HeldMore(cs', c, s.clients[c]);
    Snoc(s.answers, x);
    MoveAcross(multiset(s.answers), BusyWith(s.busy), Held(cs'), multiset(Handed(s.delivered)), x);
    EverywhereIs(s);
    EverywhereIs(t);
    MovedFaithful(exec, db0, s, t);
  }

  lemma StepFaithful<S, O, R>(exec: Exec<S, O, R>, db0: S, s: State<S, O, R>, step: Step<O>)
    requires Faithful(exec, db0, s) && Enabled(s, step)
    ensures Faithful(exec, db0, Apply(exec, s, step))
  {
    match step
    case Issue(c, id, op) => SameHeld(s.clients, c, Sending(Query(id, op, c)));
    case Push(c) => PushFaithful(exec, db0, s, c);
    case Handle => HandleFaithful(exec, db0, s);
    case Reply => ReplyFaithful(exec, db0, s);
    case Pop(c) => if s.answers[0].id == s.clients[c].id { DeliverFaithful(exec, db0, s, c); } else { HoldFaithful(exec, db0, s, c); }
    case PushBack(c) => PushBackFaithful(exec, db0, s, c);
  }

  lemma LoggedMore<O>(log: seq<Query<O>>, q: Query<O>, id: QueryID, c: nat)
    ensures Logged(log, id, c) ==> Logged(log + [q], id, c)
    ensures Logged(log + [q], q.id, q.from)
    ensures Absent(log + [q], id) <==> Absent(log, id) && id != q.id
  {
    assert (log + [q])[|log|] == q;
    if Logged(log, id, c) {
      var k :| 0 <= k < |log| && log[k].id == id && log[k].from == c;
      assert (log + [q])[k] == log[k];
    }
    assert forall k | 0 <= k < |log| :: (log + [q])[k] == log[k];
  }

  lemma PushAccounted<S, O, R>(exec: Exec<S, O, R>, s: State<S, O, R>, c: nat)
    requires Accounted(s) && Enabled(s, Push(c))
    ensures Accounted(Apply(exec, s, Push(c)))
  {
    var q, t := s.clients[c].query, Apply(exec, s, Push(c));
    ExpectingUpdate(s.clients, c, Waiting(q.id));
    hide Logged;
    assert UniqueLog(t.log, t.used);
    forall e | 0 <= e < |t.clients| && Expects(t.clients[e]) == 1 ensures Logged(t.log, t.clients[e].id, e) {
      LoggedMore(s.log, q, t.clients[e].id, e);
    }
    forall i | 0 <= i < |s.delivered| ensures Logged(t.log, s.delivered[i].1.id, s.delivered[i].0) {
      LoggedMore(s.log, q, s.delivered[i].1.id, s.delivered[i].0);
    }
    SendersMore(s.clients, s.log, s.used, c);
  }

  lemma SendersMore<O, R>(cs: seq<Client<O, R>>, log: seq<Query<O>>, used: set<QueryID>, c: nat)
    requires Senders(cs, log, used) && c < |cs| && cs[c].Sending?
    ensures Senders(cs[c := Waiting(cs[c].query.id)], log + [cs[c].query], used)
  {
    var q, cs' := cs[c].query, cs[c := Waiting(cs[c].query.id)];
    forall e | 0 <= e < |cs'| && cs'[e].Sending? ensures Absent(log + [q], cs'[e].query.id) {
      LoggedMore(log, q, cs'[e].query.id, e);
    }
  }

  /** A client that neither sends now nor waits for something else. */
  lemma ClientAccounted<O, R>(cs: seq<Client<O, R>>, log: seq<Query<O>>, used: set<QueryID>, c: nat, x: Client<O, R>)
    requires Senders(cs, log, used) && Waiters(cs, log) && c < |cs| && !x.Sending?
    requires Expects(x) == 1 ==> Logged(log, x.id, c)
    ensures Senders(cs[c := x], log, used) && Waiters(cs[c := x], log)
  {
  }

  lemma IssueAccounted<S, O, R>(exec: Exec<S, O, R>, s: State<S, O, R>, c: nat, id: QueryID, op: O)
    requires Accounted(s) && Enabled(s, Issue(c, id, op))
    ensures Accounted(Apply(exec, s, Issue(c, id, op)))
  {
    ExpectingUpdate(s.clients, c, Sending(Query(id, op, c)));
    assert Absent(s.log, id);
  }

  lemma PopAccounted<S, O, R>(exec: Exec<S, O, R>, s: State<S, O, R>, c: nat)
    requires Accounted(s) && Enabled(s, Pop(c))
    ensures Accounted(Apply(exec, s, Pop(c)))
  {
    var x := if s.answers[0].id == s.clients[c].id then Idle else Holding(s.clients[c].id, s.answers[0]);
    ExpectingUpdate(s.clients, c, x);
    ClientAccounted(s.clients, s.log, s.used, c, x);
    hide Logged, Senders, Waiters, UniqueLog, Expecting;
  }

  lemma PushBackAccounted<S, O, R>(exec: Exec<S, O, R>, s: State<S, O, R>, c: nat)
    requires Accounted(s) && Enabled(s, PushBack(c))
    ensures Accounted(Apply(exec, s, PushBack(c)))
  {
    var x := Waiting(s.clients[c].id);
    ExpectingUpdate(s.clients, c, x);
    ClientAccounted(s.clients, s.log, s.used, c, x);
    hide Logged, Senders, Waiters, UniqueLog, OwnAnswers, Expecting;
  }

  lemma StepAccounted<S, O, R>(exec: Exec<S, O, R>, s: State<S, O, R>, step: Step<O>)
    requires Accounted(s) && Enabled(s, step)
    ensures Accounted(Apply(exec, s, step))
  {
    match step
    case Issue(c, id, op) => IssueAccounted(exec, s, c, id, op);
    case Push(c) => PushAccounted(exec, s, c);
    case Handle =>
    case Reply =>
    case Pop(c) => PopAccounted(exec, s, c);
    case PushBack(c) => PushBackAccounted(exec, s, c);
  }

  lemma StepOwned<S, O, R>(exec: Exec<S, O, R>, s: State<S, O, R>, step: Step<O>)
    requires Owned(s) && Accounted(s) && Enabled(s, step)
    ensures Owned(Apply(exec, s, step))
  {
    var t := Apply(exec, s, step);
    forall k | 0 <= k < |t.log| ensures OwnedAt(t, t.log[k].id, t.log[k].from) {
      if k < |s.log| {
        assert t.log[k] == s.log[k] && OwnedAt(s, s.log[k].id, s.log[k].from);
        StaysOwned(exec, s, step, s.log[k].id, s.log[k].from);
      }
    }
  }

  lemma StaysOwned<S, O, R>(exec: Exec<S, O, R>, s: State<S, O, R>, step: Step<O>, id: QueryID, c: nat)
    requires OwnedAt(s, id, c) && Enabled(s, step)
    ensures OwnedAt(Apply(exec, s, step), id, c)
  {
    var t := Apply(exec, s, step);
    if i :| 0 <= i < |s.delivered| && s.delivered[i].1.id == id {
      assert t.delivered[i] == s.delivered[i];
    } else if step.Pop? && step.client == c && s.answers[0].id == id {
      assert t.delivered[|s.delivered|].1.id == id;
    }
  }

  /** Every step keeps the invariant. */
  lemma StepKeeps<S, O, R>(exec: Exec<S, O, R>, db0: S, s: State<S, O, R>, step: Step<O>)
    requires Invariant(exec, db0, s) && Enabled(s, step)
    ensures Invariant(exec, db0, Apply(exec, s, step))
  {
    hide Faithful, Accounted, Owned;
    StepFaithful(exec, db0, s, step);
    StepAccounted(exec, s, step);
    StepOwned(exec, s, step);
  }

  // ---------------------------------------------------------------- runs

  /** The steps lead from s to t, each one enabled in its turn. */
  ghost predicate Run<S, O, R>(exec: Exec<S, O, R>, s: State<S, O, R>, steps: seq<Step<O>>, t: State<S, O, R>)
    decreases |steps|
  {
    if steps == [] then s == t
    else Enabled(s, steps[0]) && Run(exec, Apply(exec, s, steps[0]), steps[1..], t)
  }

  lemma {:induction false} RunKeeps<S, O, R>(exec: Exec<S, O, R>, db0: S, s: State<S, O, R>, steps: seq<Step<O>>, t: State<S, O, R>)
    requires Invariant(exec, db0, s) && Run(exec, s, steps, t)
    ensures Invariant(exec, db0, t)
    decreases |steps|
  {
    hide Invariant, Apply, Enabled;
    if steps != [] {
      StepKeeps(exec, db0, s, steps[0]);
      RunKeeps(exec, db0, Apply(exec, s, steps[0]), steps[1..], t);
    }
  }

  lemma {:induction false} SerialPrefix<S, O, R>(exec: Exec<S, O, R>, db: S, qs: seq<Query<O>>, n: nat, k: nat)
    requires k < n <= |qs|
    ensures |Serial(exec, db, qs).1| == |qs| && |Serial(exec, db, qs[..n]).1| == n
    ensures Serial(exec, db, qs).1[k] == Serial(exec, db, qs[..n]).1[k]
    decreases |qs|
  {
    SerialLength(exec, db, qs);
    SerialLength(exec, db, qs[..n]);
    if n < |qs| {
      SerialPrefix(exec, db, qs[..|qs| - 1], n, k);
      assert qs[..|qs| - 1][..n] == qs[..n];
      SerialLength(exec, db, qs[..|qs| - 1]);
    } else {
      assert qs[..n] == qs;
    }
  }

  /**
    What a client was given is the answer to the query it had enqueued, the one that a single user
    running all queries in the order of their enqueueing would get; and no answer was given twice.
  */
  lemma ResultsAreSerial<S, O, R>(exec: Exec<S, O, R>, db0: S, s: State<S, O, R>, i: nat) returns (k: nat)
    requires Invariant(exec, db0, s) && i < |s.delivered|
    ensures k < |s.log| == |Serial(exec, db0, s.log).1| && s.log[k].from == s.delivered[i].0
    ensures s.delivered[i].1 == Serial(exec, db0, s.log).1[k]
    ensures forall j | 0 <= j < |s.delivered| && j != i :: s.delivered[j].1.id != s.delivered[i].1.id
  {
    var h := Handled(s);
    var all := Serial(exec, db0, s.log[..h]).1;
    k := OneOfTheHandled(exec, db0, s, i, h, all);
    hide *;
    SerialPrefix(exec, db0, s.log, h, k);
    DeliveredOnce(s, all, i);
  }

  /** The query that delivery i answers is one of those handled. */
  lemma OneOfTheHandled<S, O, R>(exec: Exec<S, O, R>, db0: S, s: State<S, O, R>, i: nat, h: nat, all: seq<Answer<R>>) returns (k: nat)
    requires Invariant(exec, db0, s) && i < |s.delivered| && h == Handled(s) && all == Serial(exec, db0, s.log[..h]).1
    ensures k < h <= |s.log| && |all| == h && all[k] == s.delivered[i].1 && s.log[k].from == s.delivered[i].0
    ensures Everywhere(s) == multiset(all) && forall j, m | 0 <= j < m < |all| :: all[j].id != all[m].id
  {
    SerialLength(exec, db0, s.log[..h]);
    hide Everywhere, Serial;
    k := InSerial(s, all, i);
    var k' :| 0 <= k' < |s.log| && s.log[k'].id == s.delivered[i].1.id && s.log[k'].from == s.delivered[i].0;
    assert s.log[..h][k] == s.log[k];
    assert k == k';
  }

  lemma InSerial<S, O, R>(s: State<S, O, R>, all: seq<Answer<R>>, i: nat) returns (k: nat)
    requires Everywhere(s) == multiset(all) && i < |s.delivered|
    ensures k < |all| && all[k] == s.delivered[i].1
  {
    var a := s.delivered[i].1;
    assert Handed(s.delivered)[i] == a;
    EverywhereIs(s);
    SumHas(multiset(s.answers), BusyWith(s.busy), Held(s.clients), multiset(Handed(s.delivered)), a);
    assert a in multiset(all);
    k :| 0 <= k < |all| && all[k] == a;
  }

  lemma SumHas<T>(a: multiset<T>, b: multiset<T>, c: multiset<T>, d: multiset<T>, x: T)
    ensures Sum(a, b, c, d)[x] >= d[x]
  {
  }

  lemma {:induction false} IdsOnce<R>(all: seq<Answer<R>>, i: nat, j: nat)
    requires i < j < |all| && all[i] == all[j]
    ensures multiset(all)[all[i]] >= 2
  {
    assert all == all[..j] + [all[j]] + all[j + 1..];
    assert all[..j][i] == all[j];
    assert all[j] in multiset(all[..j]);
    assert multiset(all) == multiset(all[..j]) + multiset{all[j]} + multiset(all[j + 1..]);
  }

  lemma DeliveredOnce<S, O, R>(s: State<S, O, R>, all: seq<Answer<R>>, i: nat)
    requires Everywhere(s) == multiset(all) && i < |s.delivered|
    requires forall k, m | 0 <= k < m < |all| :: all[k].id != all[m].id
    ensures forall j | 0 <= j < |s.delivered| && j != i :: s.delivered[j].1.id != s.delivered[i].1.id
  {
    var d := Handed(s.delivered);
    forall j | 0 <= j < |s.delivered| && j != i ensures s.delivered[j].1.id != s.delivered[i].1.id {
      var k := InSerial(s, all, i);
      var m := InSerial(s, all, j);
      if k == m {
        assert d[i] == d[j];
        if i < j { IdsOnce(d, i, j); } else { IdsOnce(d, j, i); }
        EverywhereIs(s);
        SumHas(multiset(s.answers), BusyWith(s.busy), Held(s.clients), multiset(d), d[i]);
        AtMostOnce(all, d[i]);
        assert false;
      }
    }
  }

  lemma {:induction false} AtMostOnce<R>(all: seq<Answer<R>>, a: Answer<R>)
    requires forall k, m | 0 <= k < m < |all| :: all[k].id != all[m].id
    ensures multiset(all)[a] <= 1
    decreases |all|
  {
    if all != [] {
      AtMostOnce(all[1..], a);
      assert all == [all[0]] + all[1..];
      if all[0] == a { assert a !in all[1..]; }
    }
  }

  // ---------------------------------------------------------------- no deadlock

  lemma {:induction false} HeldCount<O, R>(cs: seq<Client<O, R>>)
    ensures |Held(cs)| <= Expecting(cs)
    ensures |Held(cs)| == Expecting(cs) <==> forall c | 0 <= c < |cs| :: !cs[c].Waiting?
  {
    if cs != [] {
      HeldCount(cs[1..]);
      assert |HeldBy(cs[0])| == if cs[0].Holding? then 1 else 0;
    }
  }

  /** Every answer and query that is under way belongs to a client that waits or holds one. */
  lemma UnderWay<S, O, R>(exec: Exec<S, O, R>, db0: S, s: State<S, O, R>)
    requires Invariant(exec, db0, s)
    ensures |s.answers| + (if s.busy.Some? then 1 else 0) + |Held(s.clients)| + |s.requests| == Expecting(s.clients)
  {
    SerialLength(exec, db0, s.log[..Handled(s)]);
    EverywhereIs(s);
    SumSize(multiset(s.answers), BusyWith(s.busy), Held(s.clients), multiset(Handed(s.delivered)));
    SizeOf(s.answers);
    SizeOf(Handed(s.delivered));
    SizeOf(Serial(exec, db0, s.log[..Handled(s)]).1);
  }

  lemma SumSize<T>(a: multiset<T>, b: multiset<T>, c: multiset<T>, d: multiset<T>)
    ensures |Sum(a, b, c, d)| == |a| + |b| + |c| + |d|
  {
  }

  lemma SizeOf<T>(s: seq<T>)
    ensures |multiset(s)| == |s|
  {
  }

  /** However the buffers fill up: as long as some client is in a call, some step can be taken. */
  lemma NoDeadlock<S, O, R>(exec: Exec<S, O, R>, db0: S, s: State<S, O, R>, c: nat) returns (step: Step<O>)
    requires Invariant(exec, db0, s) && c < |s.clients| && !s.clients[c].Idle?
    ensures Enabled(s, step) && !step.Issue?
  {
    UnderWay(exec, db0, s);
    HeldCount(s.clients);
    if w: nat :| w < |s.clients| && s.clients[w].Waiting? {
      step := if s.answers != [] then Pop(w) else if s.busy.Some? then Reply else Handle;
    } else {
      step := if s.clients[c].Holding? then PushBack(c) else Push(c);
    }
  }

  // ---------------------------------------------------------------- every run from the start

  /** Delivery i went to the client that had enqueued query k, and is the serial answer to it. */
  ghost predicate OwnSerialAnswer<S, O, R>(exec: Exec<S, O, R>, db0: S, s: State<S, O, R>, i: nat, k: nat)
    requires i < |s.delivered|
  {
    && k < |s.log| == |Serial(exec, db0, s.log).1|
    && s.log[k].from == s.delivered[i].0 && s.log[k].id == s.delivered[i].1.id && s.delivered[i].1 == Serial(exec, db0, s.log).1[k]
  }

  ghost predicate WellAnswered<S, O, R>(exec: Exec<S, O, R>, db0: S, s: State<S, O, R>, i: nat)
    requires i < |s.delivered|
  {
    exists k: nat :: OwnSerialAnswer(exec, db0, s, i, k)
  }

  predicate InCall<S, O, R>(s: State<S, O, R>, c: nat) { c < |s.clients| && !s.clients[c].Idle? }

  predicate GoesOn<S, O, R>(s: State<S, O, R>, step: Step<O>) { Enabled(s, step) && !step.Issue? }

  ghost predicate ReturnedOnce<R>(delivered: seq<(nat, Answer<R>)>) {
    forall i, j | 0 <= i < j < |delivered| :: delivered[i].1.id != delivered[j].1.id
  }

  /**
    In every state that any number of clients and the server come to, by any interleaving: the buffers
    are within capacity, whatever was returned is the serial answer to a query of that client, no answer
    was returned twice, and while a client is in a call some step other than a new query is possible.
  */
  lemma EveryReachableState<S, O, R>(exec: Exec<S, O, R>, db: S, n: nat, steps: seq<Step<O>>, t: State<S, O, R>)
    requires Run(exec, Initial<S, O, R>(db, n), steps, t)
    ensures |t.requests| <= CAPACITY && |t.answers| <= CAPACITY
    ensures forall i | 0 <= i < |t.delivered| :: WellAnswered(exec, db, t, i)
    ensures ReturnedOnce(t.delivered)
    ensures (exists c: nat :: InCall(t, c)) ==> exists step: Step<O> :: GoesOn(t, step)
  {
    InitialHolds(exec, db, n);
    RunKeeps(exec, db, Initial<S, O, R>(db, n), steps, t);
    InvariantSays(exec, db, t);
    hide *;
  }

  lemma InvariantSays<S, O, R>(exec: Exec<S, O, R>, db: S, t: State<S, O, R>)
    requires Invariant(exec, db, t)
    ensures |t.requests| <= CAPACITY && |t.answers| <= CAPACITY
    ensures forall i | 0 <= i < |t.delivered| :: WellAnswered(exec, db, t, i)
    ensures ReturnedOnce(t.delivered)
    ensures (exists c: nat :: InCall(t, c)) ==> exists step: Step<O> :: GoesOn(t, step)
  {
    hide Faithful, Accounted, Serial, OwnSerialAnswer;
    forall i | 0 <= i < |t.delivered| ensures WellAnswered(exec, db, t, i) { var k := OwnAnswer(exec, db, t, i); }
    forall i, j | 0 <= i < j < |t.delivered| ensures t.delivered[i].1.id != t.delivered[j].1.id {
      var k := ResultsAreSerial(exec, db, t, i);
    }
    if c: nat :| InCall(t, c) {
      var step := NoDeadlock(exec, db, t, c);
      assert GoesOn(t, step);
    }
  }

  lemma OwnAnswer<S, O, R>(exec: Exec<S, O, R>, db: S, t: State<S, O, R>, i: nat) returns (k: nat)
    requires Invariant(exec, db, t) && i < |t.delivered|
    ensures OwnSerialAnswer(exec, db, t, i, k)
  {
    k := ResultsAreSerial(exec, db, t, i);
    SerialLength(exec, db, t.log);
    hide Invariant, Serial;
  }
}
