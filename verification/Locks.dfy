/** The five mutexes of the agent's handler, taken by any number of concurrent tasks.
    A mutex is a FIFO queue whose first task owns it, as in tokio. */
module Locks {

  datatype Lock = Identities | StaleAt | Cert | Configuration | Signatory

  function Rank(l: Lock): nat {
    match l
    case Identities => 0
    case StaleAt => 1
    case Cert => 2
    case Configuration => 3
    case Signatory => 4
  }

  datatype Op = Acquire(lock: Lock) | Release(lock: Lock)

  type TaskId = nat

  /** A task: what it still has to do, and the guards it owns. */
  datatype Task = Task(rest: seq<Op>, held: set<Lock>)

  datatype State = State(tasks: seq<Task>, queues: map<Lock, seq<TaskId>>)

  // ---------- the paths through the handler ----------

  function Guarded(l: Lock, inner: seq<Op>): seq<Op> {
    [Acquire(l)] + inner + [Release(l)]
  }

  /** `complete_rustica_challenge` against one server after another: the signatory is locked to read the
      public key, and once more when the server asks for a signature. */
  function Challenges(signed: seq<bool>): seq<Op> {
    if signed == [] then []
    else
      var use := Guarded(Signatory, []);
      (if signed[0] then use + use else use) + Challenges(signed[1..])
  }

  datatype Operation =
    | AddIdentity
    | ListIdentities(signed: seq<bool>)
    | FetchCertificate(signed: seq<bool>)
    | PeekCertificate
    | SignWithLoadedKey
    | SignWithSignatory

  function FetchPath(signed: seq<bool>): seq<Op> {
    Guarded(StaleAt, Guarded(Cert, Guarded(Configuration, Challenges(signed))))
  }

  function PathOf(op: Operation): seq<Op> {
    match op
    case AddIdentity => Guarded(Identities, [])
    case ListIdentities(signed) => Guarded(Identities, []) + FetchPath(signed)
    case FetchCertificate(signed) => FetchPath(signed)
    case PeekCertificate => Guarded(StaleAt, Guarded(Cert, []))
    case SignWithLoadedKey => Guarded(Identities, [])
    // The guard made in the condition of an if-let lives through its else branches.
    case SignWithSignatory => Guarded(Identities, Guarded(Signatory, []))
  }

  // ---------- steps ----------

  datatype Action = Enqueue(task: TaskId) | Enter(task: TaskId) | Leave(task: TaskId)

  function Queue(s: State, l: Lock): seq<TaskId> {
    if l in s.queues then s.queues[l] else []
  }

  predicate Finished(t: Task) {
    t.rest == []
  }

  predicate Enabled(s: State, a: Action) {
    && a.task < |s.tasks|
    && !Finished(s.tasks[a.task])
    && var op := s.tasks[a.task].rest[0];
       match a
       case Enqueue(t) => op.Acquire? && t !in Queue(s, op.lock)
       case Enter(t) =>
         op.Acquire? && op.lock !in s.tasks[t].held && Queue(s, op.lock) != [] && Queue(s, op.lock)[0] == t
       case Leave(t) => op.Release?
  }

  function Next(s: State, a: Action): State
    requires Enabled(s, a)
  {
    var task := s.tasks[a.task];
    var l := task.rest[0].lock;
    match a
    case Enqueue(t) => s.(queues := s.queues[l := Queue(s, l) + [t]])
    case Enter(t) => s.(tasks := s.tasks[t := Task(task.rest[1..], task.held + {l})])
    case Leave(t) =>
      var q := Queue(s, l);
      State(s.tasks[t := Task(task.rest[1..], task.held - {l})],
            s.queues[l := if q != [] && q[0] == t then q[1..] else q])
  }

  function Started(ops: seq<Operation>): State {
    State(seq(|ops|, i requires 0 <= i < |ops| => Task(PathOf(ops[i]), {})), map[])
  }

  ghost predicate Step(s: State, s': State) {
    exists a :: Enabled(s, a) && s' == Next(s, a)
  }

  ghost predicate IsRun(ops: seq<Operation>, states: seq<State>) {
    && |states| > 0
    && states[0] == Started(ops)
    && forall i :: 0 <= i < |states| - 1 ==> Step(states[i], states[i + 1])
  }

  // ---------- lock order of the paths ----------

  predicate Above(l: Lock, held: set<Lock>) {
    forall h :: h in held ==> Rank(h) < Rank(l)
  }

  /** `ops`, begun while owning `held`, takes every lock above those it owns, gives back only what it owns,
      and ends owning `held'`. */
  predicate Ordered(ops: seq<Op>, held: set<Lock>, held': set<Lock>) {
    if ops == [] then held == held'
    else match ops[0]
      case Acquire(l) => Above(l, held) && Ordered(ops[1..], held + {l}, held')
      case Release(l) => l in held && Ordered(ops[1..], held - {l}, held')
  }

  lemma {:induction false} OrderedThen(p: seq<Op>, q: seq<Op>, a: set<Lock>, b: set<Lock>, c: set<Lock>)
    requires Ordered(p, a, b) && Ordered(q, b, c)
    ensures Ordered(p + q, a, c)
    decreases |p|
  {
    if p == [] {
      assert p + q == q;
    } else {
      assert (p + q)[1..] == p[1..] + q;
      OrderedThen(p[1..], q, if p[0].Acquire? then a + {p[0].lock} else a - {p[0].lock}, b, c);
    }
  }

  lemma OrderedGuard(l: Lock, inner: seq<Op>, held: set<Lock>)
    requires Above(l, held) && Ordered(inner, held + {l}, held + {l})
    ensures Ordered(Guarded(l, inner), held, held)
  {
    assert held + {l} - {l} == held;
    assert [Release(l)][1..] == [];
    assert Ordered([Release(l)], held + {l}, held);
    OrderedThen(inner, [Release(l)], held + {l}, held + {l}, held);
    assert Guarded(l, inner)[1..] == inner + [Release(l)];
  }

  lemma {:induction false} ChallengesOrdered(signed: seq<bool>, held: set<Lock>)
    requires Above(Signatory, held)
    ensures Ordered(Challenges(signed), held, held)
  {
    if signed != [] {
      OrderedGuard(Signatory, [], held);
      var use := Guarded(Signatory, []);
      OrderedThen(use, use, held, held, held);
      ChallengesOrdered(signed[1..], held);
      OrderedThen(if signed[0] then use + use else use, Challenges(signed[1..]), held, held, held);
    }
  }

  /** Every path of the handler takes its locks in increasing rank and returns them all. */
  lemma PathsAreOrdered(op: Operation)
    ensures Ordered(PathOf(op), {}, {})
    decreases op.ListIdentities?
  {
    OrderedGuard(Identities, [], {});
    match op {
      case AddIdentity =>
      case SignWithLoadedKey =>
      case ListIdentities(signed) =>
        PathsAreOrdered(FetchCertificate(signed));
        OrderedThen(Guarded(Identities, []), FetchPath(signed), {}, {}, {});
      case FetchCertificate(signed) =>
        ChallengesOrdered(signed, {StaleAt} + {Cert} + {Configuration});
        OrderedGuard(Configuration, Challenges(signed), {StaleAt} + {Cert});
        OrderedGuard(Cert, Guarded(Configuration, Challenges(signed)), {StaleAt});
        assert {} + {StaleAt} == {StaleAt};
        OrderedGuard(StaleAt, Guarded(Cert, Guarded(Configuration, Challenges(signed))), {});
      case PeekCertificate =>
        OrderedGuard(Cert, [], {StaleAt});
        assert {} + {StaleAt} == {StaleAt};
        OrderedGuard(StaleAt, Guarded(Cert, []), {});
      case SignWithSignatory =>
        OrderedGuard(Signatory, [], {Identities});
        assert {} + {Identities} == {Identities};
        OrderedGuard(Identities, Guarded(Signatory, []), {});
    }
  }

  /** `ops`, begun while owning `held`, takes `l` at some point while it owns `h`. */
  predicate Nests(ops: seq<Op>, held: set<Lock>, h: Lock, l: Lock) {
    if ops == [] then false
    else match ops[0]
      case Acquire(x) => (x == l && h in held) || Nests(ops[1..], held + {x}, h, l)
      case Release(x) => Nests(ops[1..], held - {x}, h, l)
  }

  lemma {:induction false} NestsThen(p: seq<Op>, q: seq<Op>, a: set<Lock>, b: set<Lock>, h: Lock, l: Lock)
    requires Ordered(p, a, b)
    ensures Nests(p + q, a, h, l) <==> Nests(p, a, h, l) || Nests(q, b, h, l)
    decreases |p|
  {
    if p == [] {
      assert p + q == q;
    } else {
      assert (p + q)[1..] == p[1..] + q;
      NestsThen(p[1..], q, if p[0].Acquire? then a + {p[0].lock} else a - {p[0].lock}, b, h, l);
    }
  }

  lemma NestsGuard(x: Lock, inner: seq<Op>, held: set<Lock>, h: Lock, l: Lock)
    requires Ordered(inner, held + {x}, held + {x})
    ensures Nests(Guarded(x, inner), held, h, l) <==> (x == l && h in held) || Nests(inner, held + {x}, h, l)
  {
    NestsThen(inner, [Release(x)], held + {x}, held + {x}, h, l);
    assert [Release(x)][1..] == [];
    assert !Nests([Release(x)], held + {x}, h, l);
    assert Guarded(x, inner)[1..] == inner + [Release(x)];
  }

  lemma {:induction false} ChallengesNest(signed: seq<bool>, held: set<Lock>, h: Lock, l: Lock)
    requires Above(Signatory, held)
    ensures Nests(Challenges(signed), held, h, l) <==> signed != [] && l == Signatory && h in held
  {
    if signed != [] {
      var use := Guarded(Signatory, []);
      OrderedGuard(Signatory, [], held);
      OrderedThen(use, use, held, held, held);
      NestsGuard(Signatory, [], held, h, l);
      NestsThen(use, use, held, held, h, l);
      ChallengesNest(signed[1..], held, h, l);
      NestsThen(if signed[0] then use + use else use, Challenges(signed[1..]), held, held, h, l);
    }
  }

  lemma FetchNests(signed: seq<bool>, h: Lock, l: Lock)
    ensures Nests(FetchPath(signed), {}, h, l) <==> FetchEdge(signed, h, l)
  {
    var inner := Challenges(signed);
    ChallengesOrdered(signed, {StaleAt} + {Cert} + {Configuration});
    OrderedGuard(Configuration, inner, {StaleAt} + {Cert});
    OrderedGuard(Cert, Guarded(Configuration, inner), {StaleAt});
    assert {} + {StaleAt} == {StaleAt};
    ChallengesNest(signed, {StaleAt} + {Cert} + {Configuration}, h, l);
    NestsGuard(Configuration, inner, {StaleAt} + {Cert}, h, l);
    NestsGuard(Cert, Guarded(Configuration, inner), {StaleAt}, h, l);
    NestsGuard(StaleAt, Guarded(Cert, Guarded(Configuration, inner)), {}, h, l);
  }

  /** The edges of the lock graph that a fetch adds. */
  predicate FetchEdge(signed: seq<bool>, h: Lock, l: Lock) {
    || (h == StaleAt && (l == Cert || l == Configuration))
    || (h == Cert && l == Configuration)
    || (signed != [] && l == Signatory && (h == StaleAt || h == Cert || h == Configuration))
  }

  /** The edges of the lock graph, operation by operation. */
  predicate Edge(op: Operation, h: Lock, l: Lock) {
    match op
    case AddIdentity => false
    case SignWithLoadedKey => false
    case PeekCertificate => h == StaleAt && l == Cert
    case SignWithSignatory => h == Identities && l == Signatory
    case ListIdentities(signed) => FetchEdge(signed, h, l)
    case FetchCertificate(signed) => FetchEdge(signed, h, l)
  }

  /** Which mutex is ever waited for while which is owned. */
  lemma NestsExactly(op: Operation, h: Lock, l: Lock)
    ensures Nests(PathOf(op), {}, h, l) <==> Edge(op, h, l)
  {
    NestsGuard(Identities, [], {}, h, l);
    match op {
      case AddIdentity =>
      case SignWithLoadedKey =>
      case FetchCertificate(signed) =>
        FetchNests(signed, h, l);
      case PeekCertificate =>
        OrderedGuard(Cert, [], {StaleAt});
        assert {} + {StaleAt} == {StaleAt};
        NestsGuard(Cert, [], {StaleAt}, h, l);
        NestsGuard(StaleAt, Guarded(Cert, []), {}, h, l);
      case SignWithSignatory =>
        OrderedGuard(Signatory, [], {Identities});
        assert {} + {Identities} == {Identities};
        NestsGuard(Signatory, [], {Identities}, h, l);
        NestsGuard(Identities, Guarded(Signatory, []), {}, h, l);
      case ListIdentities(signed) =>
        OrderedGuard(Identities, [], {});
        FetchNests(signed, h, l);
        NestsThen(Guarded(Identities, []), FetchPath(signed), {}, {}, h, l);
    }
  }

  function Taken(ops: seq<Op>): set<Lock> {
    set i | 0 <= i < |ops| && ops[i].Acquire? :: ops[i].lock
  }

  lemma TakenThen(p: seq<Op>, q: seq<Op>)
    ensures Taken(p + q) == Taken(p) + Taken(q)
  {
    var all := p + q;
    assert forall i :: 0 <= i < |p| ==> all[i] == p[i];
    assert forall i :: 0 <= i < |q| ==> all[|p| + i] == q[i];
  }

  lemma TakenGuard(l: Lock, inner: seq<Op>)
    ensures Taken(Guarded(l, inner)) == {l} + Taken(inner)
  {
    TakenThen([Acquire(l)] + inner, [Release(l)]);
    TakenThen([Acquire(l)], inner);
    assert [Acquire(l)][0].lock in Taken([Acquire(l)]);
  }

  lemma {:induction false} TakenChallenges(signed: seq<bool>)
    ensures Taken(Challenges(signed)) == if signed == [] then {} else {Signatory}
  {
    if signed != [] {
      var use := Guarded(Signatory, []);
      TakenGuard(Signatory, []);
      TakenThen(use, use);
      TakenChallenges(signed[1..]);
      TakenThen(if signed[0] then use + use else use, Challenges(signed[1..]));
    }
  }

  /** The mutexes of an operation. */
  function Needs(op: Operation): set<Lock> {
    match op
    case AddIdentity => {Identities}
    case SignWithLoadedKey => {Identities}
    case SignWithSignatory => {Identities, Signatory}
    case PeekCertificate => {StaleAt, Cert}
    case FetchCertificate(signed) => {StaleAt, Cert, Configuration} + (if signed == [] then {} else {Signatory})
    case ListIdentities(signed) =>
      {Identities, StaleAt, Cert, Configuration} + (if signed == [] then {} else {Signatory})
  }

  /** Each operation takes its mutexes, and no others. */
  lemma TakenExactly(op: Operation)
    ensures Taken(PathOf(op)) == Needs(op)
  {
    TakenGuard(Identities, []);
    TakenGuard(Cert, []);
    TakenGuard(Signatory, []);
    TakenGuard(StaleAt, Guarded(Cert, []));
    TakenGuard(Identities, Guarded(Signatory, []));
    match op {
      case FetchCertificate(signed) => TakenFetch(signed);
      case ListIdentities(signed) =>
        TakenFetch(signed);
        TakenThen(Guarded(Identities, []), FetchPath(signed));
      case _ =>
    }
  }

  lemma TakenFetch(signed: seq<bool>)
    ensures Taken(FetchPath(signed)) == {StaleAt, Cert, Configuration} + (if signed == [] then {} else {Signatory})
  {
    TakenChallenges(signed);
    TakenGuard(Configuration, Challenges(signed));
    TakenGuard(Cert, Guarded(Configuration, Challenges(signed)));
    TakenGuard(StaleAt, Guarded(Cert, Guarded(Configuration, Challenges(signed))));
  }

  function Takings(ops: seq<Op>, l: Lock): nat {
    if ops == [] then 0 else (if ops[0] == Acquire(l) then 1 else 0) + Takings(ops[1..], l)
  }

  lemma {:induction false} TakingsThen(p: seq<Op>, q: seq<Op>, l: Lock)
    ensures Takings(p + q, l) == Takings(p, l) + Takings(q, l)
  {
    if p == [] {
      assert p + q == q;
    } else {
      assert (p + q)[1..] == p[1..] + q;
      TakingsThen(p[1..], q, l);
    }
  }

  /** The signatory is locked once for each server asked, and once more for each that wants a signature. */
  lemma {:induction false} SignatoryTakings(signed: seq<bool>)
    ensures Takings(Challenges(signed), Signatory) == |signed| + multiset(signed)[true]
  {
    if signed != [] {
      var use := Guarded(Signatory, []);
      assert use == [Acquire(Signatory), Release(Signatory)];
      assert use[1..] == [Release(Signatory)] && use[1..][1..] == [];
      assert Takings(use, Signatory) == 1;
      TakingsThen(use, use, Signatory);
      TakingsThen(if signed[0] then use + use else use, Challenges(signed[1..]), Signatory);
      SignatoryTakings(signed[1..]);
      assert signed == [signed[0]] + signed[1..];
    }
  }

  // ---------- invariant ----------

  predicate NoRepeats(q: seq<TaskId>) {
    forall i, j :: 0 <= i < j < |q| ==> q[i] != q[j]
  }

  ghost predicate QueueOk(s: State, l: Lock) {
    && NoRepeats(Queue(s, l))
    && (forall t :: t in Queue(s, l) ==>
          && t < |s.tasks|
          && (l in s.tasks[t].held || (!Finished(s.tasks[t]) && s.tasks[t].rest[0] == Acquire(l))))
    && (forall t :: 0 <= t < |s.tasks| && l in s.tasks[t].held ==> Queue(s, l) != [] && Queue(s, l)[0] == t)
  }

  ghost predicate Inv(s: State) {
    && (forall t :: 0 <= t < |s.tasks| ==> Ordered(s.tasks[t].rest, s.tasks[t].held, {}))
    && (forall l :: QueueOk(s, l))
  }

  lemma InvStart(ops: seq<Operation>)
    ensures Inv(Started(ops))
  {
    forall i | 0 <= i < |ops| ensures Ordered(PathOf(ops[i]), {}, {}) {
      PathsAreOrdered(ops[i]);
    }
  }

  lemma InvStep(s: State, a: Action)
    requires Inv(s) && Enabled(s, a)
    ensures Inv(Next(s, a))
  {
    var s' := Next(s, a);
    var task := s.tasks[a.task];
    assert Ordered(task.rest, task.held, {});
    forall l ensures QueueOk(s', l) {
      assert QueueOk(s, l);
      if l == task.rest[0].lock {
        OwnQueueStep(s, a);
      } else {
        assert Queue(s', l) == Queue(s, l);
      }
    }
  }

  lemma OwnQueueStep(s: State, a: Action)
    requires Inv(s) && Enabled(s, a)
    ensures QueueOk(Next(s, a), s.tasks[a.task].rest[0].lock)
  {
    var l := s.tasks[a.task].rest[0].lock;
    assert QueueOk(s, l);
    assert Ordered(s.tasks[a.task].rest, s.tasks[a.task].held, {});
    match a {
      case Enqueue(_) => OwnQueueEnqueue(s, a);
      case Enter(_) => OwnQueueEnter(s, a);
      case Leave(_) => OwnQueueLeave(s, a);
    }
  }

  lemma OwnQueueEnqueue(s: State, a: Action)
    requires Enabled(s, a) && a.Enqueue? && QueueOk(s, s.tasks[a.task].rest[0].lock)
    ensures QueueOk(Next(s, a), s.tasks[a.task].rest[0].lock)
  {
    var l := s.tasks[a.task].rest[0].lock;
    assert Queue(Next(s, a), l) == Queue(s, l) + [a.task];
  }

  lemma OwnQueueEnter(s: State, a: Action)
    requires Enabled(s, a) && a.Enter? && QueueOk(s, s.tasks[a.task].rest[0].lock)
    ensures QueueOk(Next(s, a), s.tasks[a.task].rest[0].lock)
  {
    var l := s.tasks[a.task].rest[0].lock;
    assert Queue(Next(s, a), l) == Queue(s, l);
  }

  lemma OwnQueueLeave(s: State, a: Action)
    requires Enabled(s, a) && a.Leave? && QueueOk(s, s.tasks[a.task].rest[0].lock)
    requires s.tasks[a.task].rest[0].lock in s.tasks[a.task].held
    ensures QueueOk(Next(s, a), s.tasks[a.task].rest[0].lock)
  {
    var l := s.tasks[a.task].rest[0].lock;
    var q := Queue(s, l);
    assert q[0] == a.task && Queue(Next(s, a), l) == q[1..];
    forall t | t in q[1..] ensures t in q && t != a.task {
      var i :| 0 <= i < |q[1..]| && q[1..][i] == t;
      assert q[i + 1] == t;
    }
  }

  lemma {:induction false} InvHolds(ops: seq<Operation>, states: seq<State>)
    requires IsRun(ops, states)
    ensures Inv(states[|states| - 1]) && |states[|states| - 1].tasks| == |ops|
  {
    var n := |states| - 1;
    if n == 0 {
      InvStart(ops);
    } else {
      assert states[..n][0] == states[0];
      InvHolds(ops, states[..n]);
      assert Step(states[n - 1], states[n - 1 + 1]);
      var a :| Enabled(states[n - 1], a) && states[n] == Next(states[n - 1], a);
      InvStep(states[n - 1], a);
    }
  }

  /** No two tasks ever own one mutex. */
  lemma MutualExclusion(ops: seq<Operation>, states: seq<State>, t: TaskId, u: TaskId, l: Lock)
    requires IsRun(ops, states)
    requires var s := states[|states| - 1];
             t < |s.tasks| && u < |s.tasks| && l in s.tasks[t].held && l in s.tasks[u].held
    ensures t == u
  {
    InvHolds(ops, states);
    assert QueueOk(states[|states| - 1], l);
  }

  // ---------- no deadlock, and no endless run ----------

  /** The first task in the queue of the highest lock in use can always step. */
  lemma TopOwnerCanStep(s: State, l: Lock) returns (a: Action)
    requires Inv(s) && Queue(s, l) != []
    requires forall h :: Rank(h) > Rank(l) ==> Queue(s, h) == []
    ensures Enabled(s, a)
  {
    var t := Queue(s, l)[0];
    assert QueueOk(s, l);
    assert t in Queue(s, l);
    var task := s.tasks[t];
    assert Ordered(task.rest, task.held, {});
    assert l !in task.held ==> task.rest[0] == Acquire(l);
    a := if task.rest[0].Release? then Leave(t)
         else if l in task.held then Enqueue(t)
         else Enter(t);
  }

  lemma SomeTaskCanStep(s: State, t: TaskId) returns (a: Action)
    requires Inv(s) && t < |s.tasks| && !Finished(s.tasks[t])
    ensures Enabled(s, a)
  {
    if Queue(s, Signatory) != [] {
      a := TopOwnerCanStep(s, Signatory);
    } else if Queue(s, Configuration) != [] {
      a := TopOwnerCanStep(s, Configuration);
    } else if Queue(s, Cert) != [] {
      a := TopOwnerCanStep(s, Cert);
    } else if Queue(s, StaleAt) != [] {
      a := TopOwnerCanStep(s, StaleAt);
    } else if Queue(s, Identities) != [] {
      a := TopOwnerCanStep(s, Identities);
    } else {
      var l := s.tasks[t].rest[0].lock;
      assert l.Identities? || l.StaleAt? || l.Cert? || l.Configuration? || l.Signatory?;
      a := if s.tasks[t].rest[0].Release? then Leave(t) else Enqueue(t);
    }
  }

  /** No reachable state of any number of handler tasks is deadlocked. */
  lemma DeadlockFree(ops: seq<Operation>, states: seq<State>)
    requires IsRun(ops, states)
    ensures var s := states[|states| - 1];
            (exists a :: Enabled(s, a)) <==> (exists t :: 0 <= t < |s.tasks| && !Finished(s.tasks[t]))
  {
    InvHolds(ops, states);
    var s := states[|states| - 1];
    if t :| 0 <= t < |s.tasks| && !Finished(s.tasks[t]) {
      var a := SomeTaskCanStep(s, t);
    }
  }

  function TaskWork(s: State, t: TaskId): nat
    requires t < |s.tasks|
  {
    var rest := s.tasks[t].rest;
    if rest == [] then 0
    else 2 * |rest| - (if rest[0].Acquire? && t in Queue(s, rest[0].lock) then 1 else 0)
  }

  function Work(s: State, n: nat): nat
    requires n <= |s.tasks|
  {
    if n == 0 then 0 else Work(s, n - 1) + TaskWork(s, n - 1)
  }

  lemma {:induction false} WorkDropsBelow(s: State, s': State, n: nat, t: TaskId)
    requires n <= |s.tasks| == |s'.tasks| && t < |s.tasks|
    requires forall u :: 0 <= u < |s.tasks| && u != t ==> TaskWork(s', u) == TaskWork(s, u)
    requires TaskWork(s', t) < TaskWork(s, t)
    ensures Work(s', n) <= Work(s, n)
    ensures t < n ==> Work(s', n) < Work(s, n)
  {
    if n > 0 {
      WorkDropsBelow(s, s', n - 1, t);
    }
  }

  lemma WorkDrops(s: State, a: Action)
    requires Inv(s) && Enabled(s, a)
    ensures Work(Next(s, a), |s.tasks|) < Work(s, |s.tasks|)
  {
    var s' := Next(s, a);
    var l := s.tasks[a.task].rest[0].lock;
    assert QueueOk(s, l);
    forall u | 0 <= u < |s.tasks| && u != a.task ensures TaskWork(s', u) == TaskWork(s, u) {
      assert s'.tasks[u] == s.tasks[u];
    }
    WorkDropsBelow(s, s', |s.tasks|, a.task);
  }

  /** Every run is bounded by the work of its tasks; one that cannot go on has finished them all. */
  lemma {:induction false} RunsAreBounded(ops: seq<Operation>, states: seq<State>)
    requires IsRun(ops, states)
    ensures |states[|states| - 1].tasks| == |ops|
    ensures |states| - 1 + Work(states[|states| - 1], |ops|) <= Work(Started(ops), |ops|)
  {
    var n := |states| - 1;
    if n > 0 {
      assert states[..n][0] == states[0];
      InvHolds(ops, states[..n]);
      RunsAreBounded(ops, states[..n]);
      assert Step(states[n - 1], states[n - 1 + 1]);
      var a :| Enabled(states[n - 1], a) && states[n] == Next(states[n - 1], a);
      WorkDrops(states[n - 1], a);
    }
  }
}
