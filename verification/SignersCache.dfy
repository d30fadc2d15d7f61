/** The double-checked cache behind the allowed-signers endpoint, as a machine of arbitrarily
    many concurrent requests.  Each step is one access to shared state; every interleaving of
    enabled steps is a run.  The read/write lock serves its waiters first come, first served, as
    in tokio.  The two cache fields are read and written in separate steps, so that their agreement
    is a consequence of the read/write lock and not of the model. */
module SignersCache {
  import opened Wrappers
  import RateLimiter

  type RequestId = nat

  /** The two columns of a registered key that the endpoint publishes. */
  datatype Row = Row(identity: string, pubkey: string)

  /** A row of `registered_keys`, with the clock reading at its insertion. */
  datatype Registration = Registration(fingerprint: string, row: Row, time: nat)

  /** Where a request is.  `seen` is the expiry it compared with its own time. */
  datatype Phase =
    | WantLimiter
    | WantRead
    | QueuedRead
    | Comparing                                // holds a read lock
    | Copying(seen: nat)                       // holds a read lock
    | WantWrite
    | QueuedWrite
    | Rechecking                               // holds the write lock, as do the next six
    | Recopying(seen: nat)
    | Querying
    | Encoding(rows: seq<Row>)
    | StoringExpiry(rows: seq<Row>)
    | StoringPayload(rows: seq<Row>)
    | Replying
    | Answered(rows: seq<Row>, seen: nat)
    | Refused

  datatype Request = Request(time: nat, phase: Phase)

  /** A completed refresh: the time its request had read, and the payload it stored. */
  datatype Refresh = Refresh(start: nat, rows: seq<Row>)

  datatype State = State(
    clock: nat,
    table: seq<Registration>,
    expiry: nat,
    payload: seq<Row>,
    readers: set<RequestId>,
    writer: Option<RequestId>,
    queue: seq<RequestId>,
    requests: map<RequestId, Request>,
    refreshes: seq<Refresh>)

  datatype Action =
    | Tick(now: nat)
    | Register(fingerprint: string, row: Row)
    | Arrive(id: RequestId)
    | PassLimiter(id: RequestId, limited: bool)
    | JoinRead(id: RequestId)
    | AcquireRead(id: RequestId)
    | Compare(id: RequestId)
    | Copy(id: RequestId)
    | JoinWrite(id: RequestId)
    | AcquireWrite(id: RequestId)
    | Recheck(id: RequestId)
    | Recopy(id: RequestId)
    | Query(id: RequestId, succeeds: bool)
    | Encode(id: RequestId, succeeds: bool)
    | StoreExpiry(id: RequestId)
    | StorePayload(id: RequestId)
    | Reply(id: RequestId)
    | Cancel(id: RequestId)                    // the client goes away while the request is suspended

  function Initial(clock: nat): State {
    State(clock, [], 0, [], {}, None, [], map[], [])
  }

  /** The phases in which a request awaits something and can be dropped. */
  predicate Suspended(p: Phase) {
    p.WantLimiter? || Waits(p) || p.Querying?
  }

  /** The phases in which a request is in the lock's queue. */
  predicate Waits(p: Phase) {
    p.QueuedRead? || p.QueuedWrite?
  }

  predicate IsNext(s: State, id: RequestId) {
    s.queue != [] && s.queue[0] == id
  }

  predicate Enabled(s: State, a: Action) {
    match a
    case Tick(now) => s.clock <= now
    case Register(fingerprint, _) => forall i :: 0 <= i < |s.table| ==> s.table[i].fingerprint != fingerprint
    case Arrive(id) => id !in s.requests && s.clock > 0
    case PassLimiter(id, _) => id in s.requests && s.requests[id].phase.WantLimiter?
    case JoinRead(id) => id in s.requests && s.requests[id].phase.WantRead?
    case AcquireRead(id) => id in s.requests && s.requests[id].phase.QueuedRead? && IsNext(s, id) && s.writer.None?
    case Compare(id) => id in s.requests && s.requests[id].phase.Comparing?
    case Copy(id) => id in s.requests && s.requests[id].phase.Copying?
    case JoinWrite(id) => id in s.requests && s.requests[id].phase.WantWrite?
    case AcquireWrite(id) =>
      id in s.requests && s.requests[id].phase.QueuedWrite? && IsNext(s, id) && s.writer.None? && s.readers == {}
    case Recheck(id) => id in s.requests && s.requests[id].phase.Rechecking?
    case Recopy(id) => id in s.requests && s.requests[id].phase.Recopying?
    case Query(id, _) => id in s.requests && s.requests[id].phase.Querying?
    case Encode(id, _) => id in s.requests && s.requests[id].phase.Encoding?
    case StoreExpiry(id) => id in s.requests && s.requests[id].phase.StoringExpiry?
    case StorePayload(id) => id in s.requests && s.requests[id].phase.StoringPayload?
    case Reply(id) => id in s.requests && s.requests[id].phase.Replying?
    case Cancel(id) => id in s.requests && Suspended(s.requests[id].phase)
  }

  function Move(s: State, id: RequestId, phase: Phase): State
    requires id in s.requests
  {
    s.(requests := s.requests[id := s.requests[id].(phase := phase)])
  }

  function Without(queue: seq<RequestId>, id: RequestId): seq<RequestId> {
    if queue == [] then []
    else if queue[0] == id then queue[1..]
    else [queue[0]] + Without(queue[1..], id)
  }

  function Join(s: State, id: RequestId): State {
    s.(queue := s.queue + [id])
  }

  function Leave(s: State, id: RequestId): State {
    s.(queue := Without(s.queue, id))
  }

  function ReleaseRead(s: State, id: RequestId): State {
    s.(readers := s.readers - {id})
  }

  function ReleaseWrite(s: State): State {
    s.(writer := None)
  }

  function SelectRows(table: seq<Registration>): seq<Row> {
    seq(|table|, i requires 0 <= i < |table| => table[i].row)
  }

  function Next(validity: nat, s: State, a: Action): State
    requires Enabled(s, a)
  {
    match a
    case Tick(now) => s.(clock := now)
    case Register(fingerprint, row) => s.(table := s.table + [Registration(fingerprint, row, s.clock)])
    case Arrive(id) => s.(requests := s.requests[id := Request(s.clock, WantLimiter)])
    case PassLimiter(id, limited) => Move(s, id, if limited then Refused else WantRead)
    case JoinRead(id) => Join(Move(s, id, QueuedRead), id)
    case AcquireRead(id) => Leave(Move(s.(readers := s.readers + {id}), id, Comparing), id)
    case Compare(id) =>
      if s.requests[id].time <= s.expiry then Move(s, id, Copying(s.expiry))
      else ReleaseRead(Move(s, id, WantWrite), id)
    case Copy(id) => ReleaseRead(Move(s, id, Answered(s.payload, s.requests[id].phase.seen)), id)
    case JoinWrite(id) => Join(Move(s, id, QueuedWrite), id)
    case AcquireWrite(id) => Leave(Move(s.(writer := Some(id)), id, Rechecking), id)
    case Recheck(id) =>
      if s.requests[id].time <= s.expiry then Move(s, id, Recopying(s.expiry))
      else Move(s, id, Querying)
    case Recopy(id) => ReleaseWrite(Move(s, id, Answered(s.payload, s.requests[id].phase.seen)))
    case Query(id, succeeds) =>
      if succeeds then Move(s, id, Encoding(SelectRows(s.table)))
      else ReleaseWrite(Move(s, id, Refused))
    case Encode(id, succeeds) =>
      if succeeds then Move(s, id, StoringExpiry(s.requests[id].phase.rows))
      else ReleaseWrite(Move(s, id, Refused))
    case StoreExpiry(id) =>
      Move(s, id, StoringPayload(s.requests[id].phase.rows)).(expiry := s.requests[id].time + validity)
    case StorePayload(id) =>
      var rows := s.requests[id].phase.rows;
      Move(s, id, Replying).(payload := rows, refreshes := s.refreshes + [Refresh(s.requests[id].time, rows)])
    case Reply(id) => ReleaseWrite(Move(s, id, Answered(s.payload, s.expiry)))
    case Cancel(id) =>
      var gone := Move(s, id, Refused);
      if s.requests[id].phase.Querying? then ReleaseWrite(gone)
      else if Waits(s.requests[id].phase) then Leave(gone, id)
      else gone
  }

  ghost predicate IsRun(validity: nat, states: seq<State>) {
    && |states| > 0
    && (exists clock :: states[0] == Initial(clock))
    && forall i :: 0 <= i < |states| - 1 ==> Step(validity, states[i], states[i + 1])
  }

  ghost predicate Step(validity: nat, s: State, s': State) {
    exists a :: Enabled(s, a) && s' == Next(validity, s, a)
  }

  // ---------- the invariant ----------

  predicate HoldsRead(p: Phase) {
    p.Comparing? || p.Copying?
  }

  predicate HoldsWrite(p: Phase) {
    p.Rechecking? || p.Recopying? || p.Querying? || p.Encoding? || p.StoringExpiry? || p.StoringPayload? || p.Replying?
  }

  ghost predicate LocksAgree(s: State) {
    && (forall id :: id in s.readers <==> id in s.requests && HoldsRead(s.requests[id].phase))
    && (forall id :: s.writer == Some(id) <==> id in s.requests && HoldsWrite(s.requests[id].phase))
    && (s.writer.Some? ==> s.readers == {})
  }

  /** `rows` lists a prefix of the table that misses nothing registered before `since`. */
  ghost predicate Snapshot(table: seq<Registration>, rows: seq<Row>, since: int) {
    && |rows| <= |table|
    && (forall i :: 0 <= i < |rows| ==> rows[i] == table[i].row)
    && (forall i :: |rows| <= i < |table| ==> since <= table[i].time)
  }

  /** Every refresh starts more than the validity length after the one before it. */
  ghost predicate Spaced(validity: nat, refreshes: seq<Refresh>) {
    forall i, j :: 0 <= i < j < |refreshes| ==> refreshes[i].start + validity < refreshes[j].start
  }

  function LastExpiry(validity: nat, refreshes: seq<Refresh>): nat {
    if refreshes == [] then 0 else refreshes[|refreshes| - 1].start + validity
  }

  function LastPayload(refreshes: seq<Refresh>): seq<Row> {
    if refreshes == [] then [] else refreshes[|refreshes| - 1].rows
  }

  /** `rows` and `seen` were stored together by one refresh. */
  ghost predicate Published(validity: nat, s: State, rows: seq<Row>, seen: nat) {
    exists i :: 0 <= i < |s.refreshes| && s.refreshes[i].rows == rows && s.refreshes[i].start + validity == seen
  }

  ghost predicate RequestOk(validity: nat, s: State, r: Request) {
    && 0 < r.time <= s.clock
    && match r.phase
       case Copying(seen) => seen == s.expiry && r.time <= seen
       case Recopying(seen) => seen == s.expiry && r.time <= seen
       case Querying => s.expiry < r.time
       case Encoding(rows) => s.expiry < r.time && Snapshot(s.table, rows, r.time)
       case StoringExpiry(rows) => s.expiry < r.time && Snapshot(s.table, rows, r.time)
       case StoringPayload(rows) =>
         && s.expiry == r.time + validity
         && LastExpiry(validity, s.refreshes) < r.time
         && Snapshot(s.table, rows, r.time)
       case Replying => s.expiry == r.time + validity
       case Answered(rows, seen) => r.time <= seen && Published(validity, s, rows, seen)
       case _ => true
  }

  /** No request is between its two stores. */
  ghost predicate Settled(s: State) {
    forall id :: id in s.requests ==> !s.requests[id].phase.StoringPayload?
  }

  ghost predicate RequestsOk(validity: nat, s: State) {
    forall id :: id in s.requests ==> RequestOk(validity, s, s.requests[id])
  }

  ghost predicate HistoryOk(validity: nat, s: State) {
    && s.payload == LastPayload(s.refreshes)
    && Spaced(validity, s.refreshes)
    && forall i :: 0 <= i < |s.refreshes| ==>
         && 0 < s.refreshes[i].start <= s.clock
         && Snapshot(s.table, s.refreshes[i].rows, s.refreshes[i].start)
  }

  predicate NoRepeats(queue: seq<RequestId>) {
    forall i, j :: 0 <= i < j < |queue| ==> queue[i] != queue[j]
  }

  /** The queue holds exactly the waiting requests, each once. */
  ghost predicate QueueAgrees(s: State) {
    && NoRepeats(s.queue)
    && (forall id :: id in s.queue <==> id in s.requests && Waits(s.requests[id].phase))
  }

  ghost predicate Inv(validity: nat, s: State) {
    && LocksAgree(s)
    && QueueAgrees(s)
    && RequestsOk(validity, s)
    && HistoryOk(validity, s)
    && (Settled(s) ==> s.expiry == LastExpiry(validity, s.refreshes))
  }

  /** Requests before and after agree except at `id`, whose lock class changes as the lock does. */
  ghost predicate LockChange(s: State, s': State, id: RequestId) {
    var before := if id in s.requests then s.requests[id].phase else Refused;
    && id in s'.requests
    && s'.requests == s.requests[id := s'.requests[id]]
    && var after := s'.requests[id].phase;
       match (HoldsRead(before), HoldsWrite(before), HoldsRead(after), HoldsWrite(after))
       case (false, false, true, false) => s.writer == s'.writer == None && s'.readers == s.readers + {id}
       case (true, false, false, false) => s'.writer == s.writer && s'.readers == s.readers - {id}
       case (false, false, false, true) =>
         s.writer == None && s'.writer == Some(id) && s'.readers == s.readers == {}
       case (false, true, false, false) => s'.writer == None && s'.readers == s.readers
       case (r, w, r', w') => r == r' && w == w' && s'.writer == s.writer && s'.readers == s.readers
  }

  lemma LocksMove(s: State, s': State, id: RequestId)
    requires LocksAgree(s) && LockChange(s, s', id)
    ensures LocksAgree(s')
  {
    forall other | other != id
      ensures other in s'.readers <==> other in s.readers
      ensures s'.writer == Some(other) <==> other in s'.requests && HoldsWrite(s'.requests[other].phase)
    {
    }
  }

  lemma LocksChange(validity: nat, s: State, a: Action)
    requires Enabled(s, a) && !a.Tick? && !a.Register?
    ensures LockChange(s, Next(validity, s, a), a.id)
  {
    if a.Query? || a.Encode? || a.Cancel? || a.Recopy? || a.Reply? || a.Copy? || a.Compare? {
      ReleasersChange(validity, s, a);
    }
  }

  lemma ReleasersChange(validity: nat, s: State, a: Action)
    requires Enabled(s, a) && (a.Query? || a.Encode? || a.Cancel? || a.Recopy? || a.Reply? || a.Copy? || a.Compare?)
    ensures LockChange(s, Next(validity, s, a), a.id)
  {
  }

  lemma LocksStep(validity: nat, s: State, a: Action)
    requires LocksAgree(s) && Enabled(s, a)
    ensures LocksAgree(Next(validity, s, a))
  {
    if !a.Tick? && !a.Register? {
      LocksChange(validity, s, a);
      LocksMove(s, Next(validity, s, a), a.id);
    }
  }

  /** Requests before and after agree except at `id`, which joins or leaves the queue as it starts or stops waiting. */
  ghost predicate QueueChange(s: State, s': State, id: RequestId) {
    var before := id in s.requests && Waits(s.requests[id].phase);
    && id in s'.requests
    && s'.requests == s.requests[id := s'.requests[id]]
    && match (before, Waits(s'.requests[id].phase))
       case (false, true) => s'.queue == s.queue + [id]
       case (true, false) => s'.queue == Without(s.queue, id)
       case _ => s'.queue == s.queue
  }

  lemma {:induction false} WithoutFacts(queue: seq<RequestId>, id: RequestId)
    requires NoRepeats(queue)
    ensures NoRepeats(Without(queue, id))
    ensures forall other :: other in Without(queue, id) <==> other in queue && other != id
  {
    if queue != [] {
      assert queue == [queue[0]] + queue[1..];
      if queue[0] != id {
        WithoutFacts(queue[1..], id);
        assert queue[0] !in queue[1..];
        assert queue[0] !in Without(queue[1..], id);
      }
    }
  }

  lemma QueueMove(s: State, s': State, id: RequestId)
    requires QueueAgrees(s) && QueueChange(s, s', id)
    ensures QueueAgrees(s')
  {
    WithoutFacts(s.queue, id);
  }

  lemma QueueStep(validity: nat, s: State, a: Action)
    requires QueueAgrees(s) && Enabled(s, a)
    ensures QueueAgrees(Next(validity, s, a))
  {
    if !a.Tick? && !a.Register? {
      assert QueueChange(s, Next(validity, s, a), a.id);
      QueueMove(s, Next(validity, s, a), a.id);
    }
  }

  /** What one step may change under a request that is not its own. */
  ghost predicate Frames(validity: nat, s: State, s': State, p: Phase) {
    && s.clock <= s'.clock
    && s.table <= s'.table
    && (forall i :: |s.table| <= i < |s'.table| ==> s.clock <= s'.table[i].time)
    && s.refreshes <= s'.refreshes
    && (HoldsRead(p) || HoldsWrite(p) ==> s'.expiry == s.expiry && s'.refreshes == s.refreshes)
  }

  lemma RequestFramed(validity: nat, s: State, s': State, r: Request)
    requires RequestOk(validity, s, r) && Frames(validity, s, s', r.phase)
    ensures RequestOk(validity, s', r)
  {
    if r.phase.Answered? {
      var i :| 0 <= i < |s.refreshes|
        && s.refreshes[i].rows == r.phase.rows && s.refreshes[i].start + validity == r.phase.seen;
      assert s'.refreshes[i] == s.refreshes[i];
    }
  }

  lemma OthersFramed(validity: nat, s: State, a: Action, id: RequestId)
    requires LocksAgree(s) && Enabled(s, a) && id in s.requests
    requires a.Tick? || a.Register? || a.id != id
    ensures Frames(validity, s, Next(validity, s, a), s.requests[id].phase)
    ensures var s' := Next(validity, s, a); id in s'.requests && s'.requests[id] == s.requests[id]
  {
  }

  lemma MoverOk(validity: nat, s: State, a: Action)
    requires Inv(validity, s) && Enabled(s, a) && !a.Tick? && !a.Register?
    ensures RequestOk(validity, Next(validity, s, a), Next(validity, s, a).requests[a.id])
  {
    if a.Copy? || a.Recopy? || a.Reply? {
      AnswererOk(validity, s, a);
    } else if a.StoreExpiry? || a.StorePayload? {
      StorerOk(validity, s, a);
    } else {
      WalkerOk(validity, s, a);
    }
  }

  lemma WalkerOk(validity: nat, s: State, a: Action)
    requires Enabled(s, a) && !a.Tick? && !a.Register?
    requires !a.Copy? && !a.Recopy? && !a.Reply? && !a.StoreExpiry? && !a.StorePayload?
    requires a.id in s.requests ==> RequestOk(validity, s, s.requests[a.id])
    ensures RequestOk(validity, Next(validity, s, a), Next(validity, s, a).requests[a.id])
  {
  }

  lemma AnswererOk(validity: nat, s: State, a: Action)
    requires Inv(validity, s) && Enabled(s, a) && (a.Copy? || a.Recopy? || a.Reply?)
    ensures RequestOk(validity, Next(validity, s, a), Next(validity, s, a).requests[a.id])
  {
    HolderSeesSettled(s, a.id);
    assert RequestOk(validity, s, s.requests[a.id]);
    LastIsPublished(validity, s);
    var s' := Next(validity, s, a);
    assert s'.refreshes == s.refreshes;
    var i :| 0 <= i < |s.refreshes| && s.refreshes[i].rows == s.payload && s.refreshes[i].start + validity == s.expiry;
    assert s'.refreshes[i].rows == s.payload;
  }

  lemma StorerOk(validity: nat, s: State, a: Action)
    requires Inv(validity, s) && Enabled(s, a) && (a.StoreExpiry? || a.StorePayload?)
    ensures RequestOk(validity, Next(validity, s, a), Next(validity, s, a).requests[a.id])
  {
    assert RequestOk(validity, s, s.requests[a.id]);
    if a.StoreExpiry? {
      HolderSeesSettled(s, a.id);
    }
  }

  lemma LastIsPublished(validity: nat, s: State)
    requires Inv(validity, s) && Settled(s) && s.expiry > 0
    ensures Published(validity, s, s.payload, s.expiry)
  {
    assert s.refreshes[|s.refreshes| - 1].rows == s.payload;
  }

  /** The lock is exclusive, so a request that holds it sees a settled cache unless it is the one storing. */
  lemma HolderSeesSettled(s: State, id: RequestId)
    requires LocksAgree(s) && id in s.requests
    requires HoldsRead(s.requests[id].phase) || HoldsWrite(s.requests[id].phase)
    requires !s.requests[id].phase.StoringPayload?
    ensures Settled(s)
  {
    assert HoldsRead(s.requests[id].phase) ==> id in s.readers;
    assert HoldsWrite(s.requests[id].phase) ==> s.writer == Some(id);
    assert forall other :: other in s.requests && s.requests[other].phase.StoringPayload? ==> s.writer == Some(other);
  }

  lemma RequestsStep(validity: nat, s: State, a: Action)
    requires Inv(validity, s) && Enabled(s, a)
    ensures RequestsOk(validity, Next(validity, s, a))
  {
    var s' := Next(validity, s, a);
    forall id | id in s'.requests
      ensures RequestOk(validity, s', s'.requests[id])
    {
      if a.Tick? || a.Register? || a.id != id {
        OthersFramed(validity, s, a, id);
        RequestFramed(validity, s, s', s.requests[id]);
      } else {
        MoverOk(validity, s, a);
      }
    }
  }

  lemma SnapshotGrows(table: seq<Registration>, table': seq<Registration>, rows: seq<Row>, since: int)
    requires Snapshot(table, rows, since) && table <= table'
    requires forall i :: |table| <= i < |table'| ==> since <= table'[i].time
    ensures Snapshot(table', rows, since)
  {
  }

  /** A step that stores nothing keeps the history in order. */
  lemma HistoryKept(validity: nat, s: State, s': State)
    requires HistoryOk(validity, s) && s'.payload == s.payload && s'.refreshes == s.refreshes && s.clock <= s'.clock
    requires s.table <= s'.table && forall i :: |s.table| <= i < |s'.table| ==> s.clock <= s'.table[i].time
    ensures HistoryOk(validity, s')
  {
    forall i | 0 <= i < |s'.refreshes|
      ensures Snapshot(s'.table, s'.refreshes[i].rows, s'.refreshes[i].start)
    {
      SnapshotGrows(s.table, s'.table, s.refreshes[i].rows, s.refreshes[i].start);
    }
  }

  lemma SpacedMore(validity: nat, refreshes: seq<Refresh>, r: Refresh)
    requires Spaced(validity, refreshes) && (refreshes != [] ==> LastExpiry(validity, refreshes) < r.start)
    ensures Spaced(validity, refreshes + [r])
  {
    var more := refreshes + [r];
    forall i, j | 0 <= i < j < |more| ensures more[i].start + validity < more[j].start {
      if j == |refreshes| && i < j - 1 {
        assert refreshes[i].start + validity < refreshes[j - 1].start;
      }
    }
  }

  lemma HistoryStored(validity: nat, s: State, s': State, r: Refresh)
    requires HistoryOk(validity, s) && 0 < r.start <= s.clock && Snapshot(s.table, r.rows, r.start)
    requires s.refreshes != [] ==> LastExpiry(validity, s.refreshes) < r.start
    requires s'.payload == r.rows && s'.refreshes == s.refreshes + [r] && s'.table == s.table && s'.clock == s.clock
    ensures HistoryOk(validity, s')
  {
    SpacedMore(validity, s.refreshes, r);
  }

  lemma HistoryStep(validity: nat, s: State, a: Action)
    requires Inv(validity, s) && Enabled(s, a)
    ensures HistoryOk(validity, Next(validity, s, a))
  {
    if a.StorePayload? {
      var r := s.requests[a.id];
      assert RequestOk(validity, s, r);
      HistoryStored(validity, s, Next(validity, s, a), Refresh(r.time, r.phase.rows));
    } else {
      HistoryKept(validity, s, Next(validity, s, a));
    }
  }

  lemma StoreExpiryUnsettles(validity: nat, s: State, a: Action)
    requires Enabled(s, a) && a.StoreExpiry?
    ensures !Settled(Next(validity, s, a))
  {
    assert Next(validity, s, a).requests[a.id].phase.StoringPayload?;
  }

  lemma SettledStep(validity: nat, s: State, a: Action)
    requires Inv(validity, s) && Enabled(s, a) && Settled(Next(validity, s, a))
    ensures Next(validity, s, a).expiry == LastExpiry(validity, Next(validity, s, a).refreshes)
  {
    if a.StorePayload? {
      assert RequestOk(validity, s, s.requests[a.id]);
    } else if a.StoreExpiry? {
      StoreExpiryUnsettles(validity, s, a);
      assert false;
    } else {
      OnlyStoresSettle(validity, s, a);
    }
  }

  lemma OnlyStoresSettle(validity: nat, s: State, a: Action)
    requires Enabled(s, a) && !a.StorePayload? && !a.StoreExpiry? && Settled(Next(validity, s, a))
    ensures Settled(s)
    ensures Next(validity, s, a).expiry == s.expiry && Next(validity, s, a).refreshes == s.refreshes
  {
    forall id | id in s.requests && s.requests[id].phase.StoringPayload?
      ensures id in Next(validity, s, a).requests && Next(validity, s, a).requests[id].phase.StoringPayload?
    {
    }
  }

  lemma InvStep(validity: nat, s: State, a: Action)
    requires Inv(validity, s) && Enabled(s, a)
    ensures Inv(validity, Next(validity, s, a))
  {
    LocksStep(validity, s, a);
    QueueStep(validity, s, a);
    RequestsStep(validity, s, a);
    HistoryStep(validity, s, a);
    if Settled(Next(validity, s, a)) {
      SettledStep(validity, s, a);
    }
  }

  lemma {:induction false} InvHolds(validity: nat, states: seq<State>)
    requires IsRun(validity, states)
    ensures Inv(validity, states[|states| - 1])
  {
    var n := |states| - 1;
    if n > 0 {
      assert states[..n][0] == states[0];
      InvHolds(validity, states[..n]);
      assert Step(validity, states[n - 1], states[n - 1 + 1]);
      var a :| Enabled(states[n - 1], a) && states[n] == Next(validity, states[n - 1], a);
      InvStep(validity, states[n - 1], a);
    }
  }

  // ---------- what every interleaving guarantees ----------

  predicate Lists(rows: seq<Row>, registration: Registration) {
    registration.row in rows
  }

  /** An answer to a request of time `t` holds only registered keys, and every key registered before
      `t - validity`; one registered exactly then is missing only if the refresh behind the answer
      started at that very instant.  Its payload and the expiry it was compared with come from one refresh. */
  lemma AnswersAreFresh(validity: nat, states: seq<State>, id: RequestId)
    requires IsRun(validity, states)
    requires var s := states[|states| - 1]; id in s.requests && s.requests[id].phase.Answered?
    ensures var s := states[|states| - 1];
            var Request(t, Answered(rows, seen)) := s.requests[id];
            && Published(validity, s, rows, seen)
            && (forall row :: row in rows ==> exists i :: 0 <= i < |s.table| && s.table[i].row == row)
            && (forall i :: 0 <= i < |s.table| && s.table[i].time + validity < t ==> Lists(rows, s.table[i]))
            && (forall i :: 0 <= i < |s.table| && s.table[i].time + validity <= t && s.table[i].time + validity != seen
                  ==> Lists(rows, s.table[i]))
  {
    InvHolds(validity, states);
    var s := states[|states| - 1];
    var Request(t, Answered(rows, seen)) := s.requests[id];
    assert RequestOk(validity, s, s.requests[id]);
    var k :| 0 <= k < |s.refreshes| && s.refreshes[k].rows == rows && s.refreshes[k].start + validity == seen;
    assert Snapshot(s.table, rows, s.refreshes[k].start);
    forall i | 0 <= i < |rows| ensures Lists(rows, s.table[i]) {
      assert rows[i] == s.table[i].row;
    }
  }

  /** Refreshes start more than the validity length apart, each raises the expiry, and while no store is
      under way the cache is exactly what the last completed refresh stored. */
  lemma RefreshesAreSpaced(validity: nat, states: seq<State>)
    requires IsRun(validity, states)
    ensures var s := states[|states| - 1];
            && (forall i, j :: 0 <= i < j < |s.refreshes| ==>
                  && s.refreshes[j].start - s.refreshes[i].start > validity
                  && s.refreshes[i].start + validity < s.refreshes[j].start + validity)
            && s.payload == LastPayload(s.refreshes)
            && (Settled(s) ==> s.expiry == LastExpiry(validity, s.refreshes))
  {
    InvHolds(validity, states);
  }

  /** A refresh that fails or is abandoned leaves the cache as it was: between two settled states with
      no completed refresh in between, neither field changes. */
  lemma FailedRefreshChangesNothing(validity: nat, states: seq<State>, i: nat, j: nat)
    requires IsRun(validity, states) && i <= j < |states|
    requires Settled(states[i]) && Settled(states[j])
    requires states[i].refreshes == states[j].refreshes
    ensures states[i].expiry == states[j].expiry && states[i].payload == states[j].payload
  {
    PrefixIsRun(validity, states, i + 1);
    PrefixIsRun(validity, states, j + 1);
    InvHolds(validity, states[..i + 1]);
    InvHolds(validity, states[..j + 1]);
  }

  lemma PrefixIsRun(validity: nat, states: seq<State>, n: nat)
    requires IsRun(validity, states) && 0 < n <= |states|
    ensures IsRun(validity, states[..n])
  {
    var prefix := states[..n];
    assert prefix[0] == states[0];
    forall i | 0 <= i < n - 1 ensures Step(validity, prefix[i], prefix[i + 1]) {
      assert Step(validity, states[i], states[i + 1]);
    }
  }

  predicate Finished(p: Phase) {
    p.Answered? || p.Refused?
  }

  /** The lock never wedges: while a request is unfinished, some request can take a step of its own. */
  lemma SomeRequestCanStep(validity: nat, states: seq<State>, id: RequestId) returns (a: Action)
    requires IsRun(validity, states)
    requires var s := states[|states| - 1]; id in s.requests && !Finished(s.requests[id].phase)
    ensures var s := states[|states| - 1];
            && Enabled(s, a) && !a.Tick? && !a.Register? && !a.Arrive? && !a.Cancel?
            && a.id in s.requests
  {
    InvHolds(validity, states);
    var s := states[|states| - 1];
    if s.writer.Some? {
      a := OwnStep(s, s.writer.value);
    } else if s.readers != {} {
      var reader :| reader in s.readers;
      a := OwnStep(s, reader);
    } else if s.queue != [] {
      assert s.queue[0] in s.queue;
      a := if s.requests[s.queue[0]].phase.QueuedRead? then AcquireRead(s.queue[0]) else AcquireWrite(s.queue[0]);
    } else {
      assert id !in s.queue;
      a := OwnStep(s, id);
    }
  }

  /** A request that is neither waiting nor finished can step. */
  lemma OwnStep(s: State, id: RequestId) returns (a: Action)
    requires id in s.requests && !Finished(s.requests[id].phase) && !Waits(s.requests[id].phase)
    ensures Enabled(s, a) && !a.Tick? && !a.Register? && !a.Arrive? && !a.Cancel? && a.id == id
  {
    var p := s.requests[id].phase;
    a := if p.WantLimiter? then PassLimiter(id, false)
         else if p.WantRead? then JoinRead(id)
         else if p.Comparing? then Compare(id)
         else if p.Copying? then Copy(id)
         else if p.WantWrite? then JoinWrite(id)
         else if p.Rechecking? then Recheck(id)
         else if p.Recopying? then Recopy(id)
         else if p.Querying? then Query(id, true)
         else if p.Encoding? then Encode(id, true)
         else if p.StoringExpiry? then StoreExpiry(id)
         else if p.StoringPayload? then StorePayload(id)
         else Reply(id);
  }

  // ---------- every request finishes ----------

  /** A step of a request's own, other than arriving and being dropped. */
  predicate Progress(s: State, a: Action) {
    !a.Tick? && !a.Register? && !a.Arrive? && !a.Cancel? && a.id in s.requests
  }

  /** Requests stop moving only when all of them are finished. */
  lemma StopsOnlyFinished(validity: nat, states: seq<State>)
    requires IsRun(validity, states)
    ensures var s := states[|states| - 1];
            (exists a :: Enabled(s, a) && Progress(s, a))
            <==> (exists id :: id in s.requests && !Finished(s.requests[id].phase))
  {
    var s := states[|states| - 1];
    if id :| id in s.requests && !Finished(s.requests[id].phase) {
      var a := SomeRequestCanStep(validity, states, id);
      assert Progress(s, a);
    }
    forall a | Enabled(s, a) && Progress(s, a) ensures !Finished(s.requests[a.id].phase) {
    }
  }

  const MAX_STEPS: nat := 13

  /** How many steps a request in a phase has left at most. */
  function StepsLeft(p: Phase): nat {
    match p
    case WantLimiter => 12
    case WantRead => 11
    case QueuedRead => 10
    case Comparing => 9
    case WantWrite => 8
    case QueuedWrite => 7
    case Rechecking => 6
    case Querying => 5
    case Encoding(_) => 4
    case StoringExpiry(_) => 3
    case StoringPayload(_) => 2
    case Copying(_) => 1
    case Recopying(_) => 1
    case Replying => 1
    case Answered(_, _) => 0
    case Refused => 0
  }

  /** The same for a request that may not have arrived yet. */
  function Left(s: State, id: RequestId): nat {
    if id in s.requests then StepsLeft(s.requests[id].phase) else MAX_STEPS
  }

  /** The steps that requests below `n` have left together. */
  function AllLeft(s: State, n: nat): nat {
    if n == 0 then 0 else AllLeft(s, n - 1) + Left(s, n - 1)
  }

  predicate ByRequest(a: Action) {
    !a.Tick? && !a.Register?
  }

  function RequestSteps(actions: seq<Action>): nat {
    if actions == [] then 0
    else
      var n := |actions| - 1;
      RequestSteps(actions[..n]) + if ByRequest(actions[n]) then 1 else 0
  }

  /** A run together with its actions. */
  ghost predicate IsTrace(validity: nat, states: seq<State>, actions: seq<Action>) {
    && |states| == |actions| + 1
    && (exists clock :: states[0] == Initial(clock))
    && forall i :: 0 <= i < |actions| ==>
         Enabled(states[i], actions[i]) && states[i + 1] == Next(validity, states[i], actions[i])
  }

  ghost function ActionOf(validity: nat, s: State, s': State): (a: Action)
    requires Step(validity, s, s')
    ensures Enabled(s, a) && s' == Next(validity, s, a)
  {
    var a :| Enabled(s, a) && s' == Next(validity, s, a); a
  }

  lemma RunHasTrace(validity: nat, states: seq<State>) returns (actions: seq<Action>)
    requires IsRun(validity, states)
    ensures IsTrace(validity, states, actions)
  {
    var n := |states| - 1;
    actions := seq(n, i requires 0 <= i < n && Step(validity, states[i], states[i + 1]) =>
                        ActionOf(validity, states[i], states[i + 1]));
  }

  lemma StepUsesUp(validity: nat, s: State, a: Action)
    requires Enabled(s, a) && ByRequest(a)
    ensures Left(Next(validity, s, a), a.id) < Left(s, a.id)
    ensures forall id :: id != a.id ==> Left(Next(validity, s, a), id) == Left(s, id)
  {
  }

  lemma {:induction false} AllLeftDrops(s: State, s': State, id: RequestId, n: nat)
    requires Left(s', id) < Left(s, id) && forall other :: other != id ==> Left(s', other) == Left(s, other)
    ensures AllLeft(s', n) <= AllLeft(s, n)
    ensures id < n ==> AllLeft(s', n) < AllLeft(s, n)
  {
    if n > 0 {
      AllLeftDrops(s, s', id, n - 1);
    }
  }

  lemma {:induction false} AllLeftSame(s: State, s': State, n: nat)
    requires s'.requests == s.requests
    ensures AllLeft(s', n) == AllLeft(s, n)
  {
    if n > 0 {
      AllLeftSame(s, s', n - 1);
    }
  }

  lemma {:induction false} AllLeftAtStart(clock: nat, n: nat)
    ensures AllLeft(Initial(clock), n) == n * MAX_STEPS
  {
    if n > 0 {
      AllLeftAtStart(clock, n - 1);
    }
  }

  /** However `n` requests interleave with each other, with registrations and with the clock, they take at most
      `MAX_STEPS` steps each; every step uses up what is left. */
  lemma {:induction false} RequestStepsAreBounded(validity: nat, states: seq<State>, actions: seq<Action>, n: nat)
    requires IsTrace(validity, states, actions)
    requires forall i :: 0 <= i < |actions| && ByRequest(actions[i]) ==> actions[i].id < n
    ensures RequestSteps(actions) + AllLeft(states[|states| - 1], n) <= n * MAX_STEPS
  {
    var m := |actions| - 1;
    if actions == [] {
      var clock :| states[0] == Initial(clock);
      AllLeftAtStart(clock, n);
    } else {
      var a, s := actions[m], states[m];
      assert states[..m + 1][0] == states[0];
      RequestStepsAreBounded(validity, states[..m + 1], actions[..m], n);
      if ByRequest(a) {
        StepUsesUp(validity, s, a);
        AllLeftDrops(s, states[m + 1], a.id, n);
      } else {
        AllLeftSame(s, states[m + 1], n);
      }
    }
  }

  // ---------- who is refused ----------

  /** The steps that turn request `id` away: the limiter, a failed query or encoding, or the client's leaving. */
  predicate Refuses(a: Action, id: RequestId) {
    a == PassLimiter(id, true) || a == Query(id, false) || a == Encode(id, false) || a == Cancel(id)
  }

  predicate IsRefused(s: State, id: RequestId) {
    id in s.requests && s.requests[id].phase.Refused?
  }

  lemma RefusalStep(validity: nat, s: State, a: Action, id: RequestId)
    requires Enabled(s, a)
    ensures IsRefused(Next(validity, s, a), id) <==> IsRefused(s, id) || Refuses(a, id)
  {
  }

  /** A request is refused exactly when one of these steps was taken for it. */
  lemma {:induction false} RefusedExactlyWhen(validity: nat, states: seq<State>, actions: seq<Action>, id: RequestId)
    requires IsTrace(validity, states, actions)
    ensures IsRefused(states[|actions|], id) <==> exists i :: 0 <= i < |actions| && Refuses(actions[i], id)
  {
    if actions != [] {
      var m := |actions| - 1;
      assert states[..m + 1][0] == states[0];
      assert IsTrace(validity, states[..m + 1], actions[..m]);
      RefusedExactlyWhen(validity, states[..m + 1], actions[..m], id);
      RefusalStep(validity, states[m], actions[m], id);
      assert forall i :: 0 <= i < m ==> actions[..m][i] == actions[i];
    }
  }

  /** The calls that the limiter has seen after `n` actions, in the order its mutex was granted. */
  function LimiterCalls(states: seq<State>, actions: seq<Action>, who: RequestId -> string, n: nat)
    : seq<RateLimiter.Call>
    requires n <= |actions| < |states|
  {
    if n == 0 then []
    else
      var before, a := LimiterCalls(states, actions, who, n - 1), actions[n - 1];
      if a.PassLimiter? && a.id in states[n - 1].requests
      then before + [RateLimiter.Call(who(a.id), states[n - 1].requests[a.id].time)] else before
  }

  /** Action `n` asks the limiter for request `id`, which the calls before it make it deny. */
  ghost predicate DeniedAt(states: seq<State>, actions: seq<Action>, who: RequestId -> string, limiter: Limits,
                           n: nat, id: RequestId)
    requires n < |actions| < |states|
  {
    && actions[n].PassLimiter? && actions[n].id == id && id in states[n].requests
    && RateLimiter.Denied(LimiterCalls(states, actions, who, n), limiter.capacity, limiter.cooldown, who(id),
                          states[n].requests[id].time)
  }

  datatype Limits = Limits(capacity: nat, cooldown: nat)

  /** The limiter answers as `RateLimiter` proves it does. */
  ghost predicate LimiterAnswers(states: seq<State>, actions: seq<Action>, who: RequestId -> string, limiter: Limits)
    requires |actions| < |states|
  {
    forall n :: 0 <= n < |actions| && actions[n].PassLimiter? ==>
      (actions[n].limited <==> DeniedAt(states, actions, who, limiter, n, actions[n].id))
  }

  /** The endpoint as a whole: a request is refused exactly when the history of calls makes the limiter deny it, or its
      refresh fails, or its client leaves. */
  lemma EndpointRefusesExactlyWhen(validity: nat, states: seq<State>, actions: seq<Action>, who: RequestId -> string,
                                   limiter: Limits, id: RequestId)
    requires IsTrace(validity, states, actions) && LimiterAnswers(states, actions, who, limiter)
    ensures IsRefused(states[|actions|], id)
       <==> exists n :: 0 <= n < |actions|
              && (DeniedAt(states, actions, who, limiter, n, id)
                  || actions[n] == Query(id, false) || actions[n] == Encode(id, false) || actions[n] == Cancel(id))
  {
    RefusedExactlyWhen(validity, states, actions, id);
    forall n | 0 <= n < |actions|
      ensures Refuses(actions[n], id)
         <==> DeniedAt(states, actions, who, limiter, n, id)
              || actions[n] == Query(id, false) || actions[n] == Encode(id, false) || actions[n] == Cancel(id)
    {
    }
  }

  ghost predicate Reachable(validity: nat, s: State) {
    exists states :: IsRun(validity, states) && states[|states| - 1] == s
  }

  lemma Reach(validity: nat, s: State, a: Action, s': State)
    requires Reachable(validity, s) && Enabled(s, a) && Next(validity, s, a) == s'
    ensures Reachable(validity, s')
  {
    var states :| IsRun(validity, states) && states[|states| - 1] == s;
    var more := states + [s'];
    forall i | 0 <= i < |more| - 1 ensures Step(validity, more[i], more[i + 1]) {
      if i < |states| - 1 {
        assert Step(validity, states[i], states[i + 1]);
      }
    }
    assert more[|more| - 1] == s';
  }

  /** A reachable answer, at time `t`, that misses `row`, registered at time `r`. */
  ghost predicate Misses(validity: nat, s: State, id: RequestId, row: Row, r: nat, t: nat) {
    && Reachable(validity, s)
    && id in s.requests && s.requests[id].time == t && s.requests[id].phase.Answered?
    && |s.table| == 1 && s.table[0].time == r && s.table[0].row == row
    && !Lists(s.requests[id].phase.rows, s.table[0])
  }

  /** When answers can be relied on: every answer at `t` lists every key registered at `r` exactly when `t` is more
      than the validity length past `r`. */
  lemma ListedExactlyWhenOlder(validity: nat, r: nat, t: nat)
    requires 0 < r && 0 < t
    ensures r + validity < t
       <==> forall s, id, i ::
              Reachable(validity, s) && id in s.requests && s.requests[id].time == t && s.requests[id].phase.Answered?
              && 0 <= i < |s.table| && s.table[i].time == r
              ==> Lists(s.requests[id].phase.rows, s.table[i])
  {
    if r + validity < t {
      forall s, id, i |
        Reachable(validity, s) && id in s.requests && s.requests[id].time == t && s.requests[id].phase.Answered?
        && 0 <= i < |s.table| && s.table[i].time == r
        ensures Lists(s.requests[id].phase.rows, s.table[i])
      {
        var states :| IsRun(validity, states) && states[|states| - 1] == s;
        AnswersAreFresh(validity, states, id);
      }
    } else {
      var s, id := YoungIsMissed(validity, Row("", ""), r, t);
      assert !Lists(s.requests[id].phase.rows, s.table[0]);
    }
  }

  /** A key registered less than the validity length ago, or exactly that long ago, is missing from some answer. */
  lemma YoungIsMissed(validity: nat, row: Row, r: nat, t: nat) returns (s: State, id: RequestId)
    requires 0 < r && 0 < t <= r + validity
    ensures Misses(validity, s, id, row, r, t)
  {
    if t < r {
      s := Refreshed(validity, t);
      s := RunStep(validity, s, Tick(r));
      s := RunStep(validity, s, Register("key", row));
      id := 0;
    } else {
      s := TieIsMissed(validity, row, r, t);
      id := 1;
    }
  }

  /** A key registered at `r`, but after the query of a refresh that started at that same instant, is missing from
      answers up to and including `r + validity`. */
  lemma TieIsMissed(validity: nat, row: Row, r: nat, t: nat) returns (s: State)
    requires 0 < r <= t <= r + validity
    ensures Misses(validity, s, 1, row, r, t)
  {
    s := TieStored(validity, row, r);
    s := RunStep(validity, s, Tick(t));
    s := RunStep(validity, s, Arrive(1));
    s := RunStep(validity, s, PassLimiter(1, false));
    s := RunStep(validity, s, JoinRead(1));
    s := Granted(validity, s, 1);
    s := RunStep(validity, s, Compare(1));
    s := RunStep(validity, s, Copy(1));
  }

  lemma Granted(validity: nat, s: State, id: RequestId) returns (s': State)
    requires Reachable(validity, s) && s.queue == [id] && Enabled(s, AcquireRead(id))
    ensures Reachable(validity, s') && s' == Move(s.(readers := s.readers + {id}, queue := []), id, Comparing)
  {
    assert Without([id], id) == [];
    s' := RunStep(validity, s, AcquireRead(id));
  }

  lemma RunStep(validity: nat, s: State, a: Action) returns (s': State)
    requires Reachable(validity, s) && Enabled(s, a)
    ensures Reachable(validity, s') && s' == Next(validity, s, a)
  {
    s' := Next(validity, s, a);
    Reach(validity, s, a, s');
  }

  lemma InitialIsReachable(validity: nat, clock: nat)
    ensures Reachable(validity, Initial(clock))
  {
    var states := [Initial(clock)];
    assert IsRun(validity, states) && states[|states| - 1] == Initial(clock);
  }

  lemma FirstWaits(validity: nat, r: nat) returns (s: State)
    requires 0 < r
    ensures Reachable(validity, s)
    ensures s == State(r, [], 0, [], {}, None, [], map[0 := Request(r, WantWrite)], [])
  {
    s := Initial(r);
    InitialIsReachable(validity, r);
    s := RunStep(validity, s, Arrive(0));
    s := RunStep(validity, s, PassLimiter(0, false));
    s := RunStep(validity, s, JoinRead(0));
    s := Granted(validity, s, 0);
    s := RunStep(validity, s, Compare(0));
  }

  lemma FirstWrites(validity: nat, r: nat) returns (s: State)
    requires 0 < r
    ensures Reachable(validity, s)
    ensures s == State(r, [], 0, [], {}, Some(0), [], map[0 := Request(r, Rechecking)], [])
  {
    s := FirstWaits(validity, r);
    s := RunStep(validity, s, JoinWrite(0));
    assert Without([0], 0) == [];
    s := RunStep(validity, s, AcquireWrite(0));
  }

  lemma FirstQueried(validity: nat, r: nat) returns (s: State)
    requires 0 < r
    ensures Reachable(validity, s)
    ensures s == State(r, [], 0, [], {}, Some(0), [], map[0 := Request(r, Encoding([]))], [])
  {
    s := FirstWrites(validity, r);
    s := RunStep(validity, s, Recheck(0));
    assert SelectRows(s.table) == [];
    s := RunStep(validity, s, Query(0, true));
  }

  /** The rest of a refresh that read the empty table. */
  lemma Stores(validity: nat, s: State, r: nat) returns (s': State)
    requires Reachable(validity, s)
    requires s == State(r, s.table, 0, [], {}, Some(0), [], map[0 := Request(r, Encoding([]))], [])
    ensures Reachable(validity, s')
    ensures s' == State(r, s.table, r + validity, [], {}, None, [],
                        map[0 := Request(r, Answered([], r + validity))], [Refresh(r, [])])
  {
    s' := RunStep(validity, s, Encode(0, true));
    s' := RunStep(validity, s', StoreExpiry(0));
    s' := RunStep(validity, s', StorePayload(0));
    s' := RunStep(validity, s', Reply(0));
  }

  lemma Refreshed(validity: nat, r: nat) returns (s: State)
    requires 0 < r
    ensures Reachable(validity, s)
    ensures s == State(r, [], r + validity, [], {}, None, [],
                       map[0 := Request(r, Answered([], r + validity))], [Refresh(r, [])])
  {
    s := FirstQueried(validity, r);
    s := Stores(validity, s, r);
  }

  lemma TieStored(validity: nat, row: Row, r: nat) returns (s: State)
    requires 0 < r
    ensures Reachable(validity, s)
    ensures s == State(r, [Registration("key", row, r)], r + validity, [], {}, None, [],
                       map[0 := Request(r, Answered([], r + validity))], [Refresh(r, [])])
  {
    s := FirstQueried(validity, r);
    s := RunStep(validity, s, Register("key", row));
    s := Stores(validity, s, r);
  }
}
