/** The durable run queue (adk-core/src/run_store.rs): run records, and what each store operation does
    to the table of runs. */
module RunQueue {
  import opened Wrappers

  type Id = string
  type Value = string
  type Instant = int

  datatype RunState = Queued | Running | Waiting | Completed | Failed | Cancelled

  predicate IsTerminal(s: RunState) {
    s.Completed? || s.Failed? || s.Cancelled?
  }

  datatype OnConflict = Reject | EnqueueBehind | Interrupt

  datatype NewRun = NewRun(
    queue: string, appName: string, userId: string, sessionId: Option<string>, target: string, input: Value,
    idempotencyKey: Option<string>, concurrencyKey: Option<string>, onConflict: OnConflict,
    notBefore: Option<Instant>, maxAttempts: nat, principal: Option<Value>)

  /** What a run was created with stays in `run`; `notBefore` starts from it and changes. */
  datatype Record = Record(
    runId: Id, run: NewRun, notBefore: Option<Instant>, state: RunState, attempt: nat,
    leaseOwner: Option<string>, leaseEpoch: nat, leaseExpiresAt: Option<Instant>, heartbeatAt: Option<Instant>,
    checkpoint: Option<Value>, cancelRequested: bool, wakePending: bool,
    result: Option<Value>, error: Option<string>, createdAt: Instant, updatedAt: Instant, revision: nat)

  datatype Entry = Entry(record: Record, seqNo: nat)

  datatype QueueKey = QueueKey(queue: string, key: string)

  datatype Table = Table(runs: map<Id, Entry>, byKey: map<QueueKey, Id>, nextSeq: nat)

  datatype RunOutcome = Succeeded(value: Value) | Errored(message: string, retryable: bool) | Stopped

  datatype Reply =
    | Created(record: Record)
    | Existing(record: Record)
    | Rejected(blocking: Id)
    | Claimed(record: Record, epoch: nat)
    | NothingToClaim
    | CancelFlag(requested: bool)
    | Done
    | Finished(record: Record)
    | Pruned(count: nat)
    | StaleEpoch(id: Id, epoch: nat)
    | NotFound(id: Id)
    | InvalidRun
    | InvalidTtl

  // ---- Records ----

  predicate ValidRun(r: NewRun) {
    && r.queue != "" && r.appName != "" && r.userId != "" && r.target != ""
    && r.idempotencyKey != Some("") && r.concurrencyKey != Some("")
    && r.maxAttempts != 0
  }

  function QueuedRecord(id: Id, r: NewRun, now: Instant): Record {
    Record(id, r, r.notBefore, Queued, 0, None, 0, None, None, None, false, false, None, None, now, now, 1)
  }

  function Touch(r: Record, now: Instant): Record {
    r.(updatedAt := now, revision := r.revision + 1)
  }

  function ReleaseLease(r: Record): Record {
    r.(leaseOwner := None, leaseExpiresAt := None)
  }

  // ---- Order and holders ----

  predicate OrderLess(a: Entry, b: Entry) {
    a.record.createdAt < b.record.createdAt ||
    (a.record.createdAt == b.record.createdAt && a.seqNo < b.seqNo)
  }

  predicate IsHolder(e: Entry, queue: string, key: string) {
    e.record.run.queue == queue && e.record.run.concurrencyKey == Some(key) && !IsTerminal(e.record.state)
  }

  /** An unfinished run of the same queue and concurrency key is older. */
  predicate Blocked(t: Table, e: Entry) {
    e.record.run.concurrencyKey.Some? &&
    exists j :: j in t.runs && IsHolder(t.runs[j], e.record.run.queue, e.record.run.concurrencyKey.value) &&
                OrderLess(t.runs[j], e)
  }

  predicate IsOldestHolder(t: Table, queue: string, key: string, id: Id) {
    && id in t.runs && IsHolder(t.runs[id], queue, key)
    && forall j :: j in t.runs && IsHolder(t.runs[j], queue, key) ==> !OrderLess(t.runs[j], t.runs[id])
  }

  // ---- Writes fenced on the epoch ----

  /** The write of a worker that holds the run at this epoch is taken. */
  predicate Fenced(t: Table, id: Id, epoch: nat) {
    id in t.runs && t.runs[id].record.state == Running && t.runs[id].record.leaseEpoch == epoch
  }

  function Put(t: Table, id: Id, r: Record): Table
    requires id in t.runs
  {
    t.(runs := t.runs[id := t.runs[id].(record := r)])
  }

  predicate GoodTtl(now: Instant, ttl: nat, last: Instant) {
    ttl != 0 && now + ttl <= last
  }

  function HeartbeatRecord(r: Record, now: Instant, ttl: nat): Record {
    Touch(r.(leaseExpiresAt := Some(now + ttl), heartbeatAt := Some(now)), now)
  }

  function WaitRecord(r: Record, now: Instant, until: Option<Instant>): Record {
    Touch(ReleaseLease(r.(state := Waiting, notBefore := if r.wakePending then Some(now) else until, wakePending := false)), now)
  }

  function WakeRecord(r: Record, now: Instant): Record {
    if r.state == Waiting then Touch(r.(notBefore := Some(now)), now)
    else if r.state == Running then Touch(r.(wakePending := true), now)
    else r
  }

  predicate Retries(r: Record, o: RunOutcome) {
    o.Errored? && o.retryable && r.attempt < r.run.maxAttempts && !r.cancelRequested
  }

  function FinishRecord(r: Record, now: Instant, o: RunOutcome): Record {
    var done := match o
      case Succeeded(v) => r.(state := Completed, result := Some(v))
      case Errored(m, _) => r.(state := if Retries(r, o) then Queued else Failed, error := Some(m))
      case Stopped => r.(state := Cancelled);
    Touch(ReleaseLease(done.(wakePending := false)), now)
  }

  function CancelRecord(r: Record, now: Instant): Record {
    if r.state == Queued || r.state == Waiting then Touch(ReleaseLease(r.(state := Cancelled)), now)
    else if r.state == Running then Touch(r.(cancelRequested := true), now)
    else r
  }

  // ---- Claiming ----

  /** The claim passes a run over: it is delayed, blocked, waiting, or held under a live lease. */
  predicate PassedOver(t: Table, e: Entry, now: Instant) {
    match e.record.state
    case Queued => (e.record.notBefore.Some? && e.record.notBefore.value > now) || Blocked(t, e)
    case Waiting => e.record.notBefore.None? || e.record.notBefore.value > now
    case Running => e.record.leaseExpiresAt.Some? && e.record.leaseExpiresAt.value > now
    case _ => true
  }

  /** A run whose last allowed attempt lost its lease. */
  predicate Exhausted(e: Entry) {
    e.record.state == Running && e.record.attempt >= e.record.run.maxAttempts
  }

  function ExhaustedRecord(r: Record, now: Instant): Record {
    Touch(ReleaseLease(r.(state := Failed, error := Some("attempts exhausted"))), now)
  }

  function ClaimedRecord(r: Record, worker: string, now: Instant, ttl: nat): Record {
    Touch(r.(state := Running,
             attempt := r.attempt + (if r.state == Waiting then 0 else 1),
             leaseEpoch := r.leaseEpoch + 1,
             leaseOwner := Some(worker),
             leaseExpiresAt := Some(now + ttl),
             heartbeatAt := Some(now),
             notBefore := None), now)
  }

  /** Goes through the candidates in order: fails exhausted runs, claims the first that can be. */
  function ClaimOver(t: Table, cs: seq<Id>, worker: string, now: Instant, ttl: nat): (Table, Option<Id>)
    requires forall c :: c in cs ==> c in t.runs
    decreases |cs|
  {
    if cs == [] then (t, None) else
      var e := t.runs[cs[0]];
      if PassedOver(t, e, now) then ClaimOver(t, cs[1..], worker, now, ttl)
      else if Exhausted(e) then ClaimOver(Put(t, cs[0], ExhaustedRecord(e.record, now)), cs[1..], worker, now, ttl)
      else (Put(t, cs[0], ClaimedRecord(e.record, worker, now, ttl)), Some(cs[0]))
  }

  /** The unfinished runs of a queue. */
  function CandidateSet(t: Table, queue: string): set<Id> {
    set i | i in t.runs && t.runs[i].record.run.queue == queue && !IsTerminal(t.runs[i].record.state)
  }

  /** `cs` lists the runs `ids`, oldest first. */
  ghost predicate InOrder(t: Table, ids: set<Id>, cs: seq<Id>) {
    && (forall i :: i in cs <==> i in ids)
    && (forall c :: c in cs ==> c in t.runs)
    && (forall i, j :: 0 <= i < j < |cs| ==> cs[i] != cs[j] && OrderLess(t.runs[cs[i]], t.runs[cs[j]]))
  }

  // ---- Enqueueing ----

  function InterruptRecord(r: Record, now: Instant): Record {
    if r.state == Running then Touch(r.(cancelRequested := true), now)
    else Touch(ReleaseLease(r.(state := Cancelled)), now)
  }

  function InterruptHolders(t: Table, queue: string, key: string, now: Instant): Table {
    t.(runs := map i | i in t.runs ::
                 if IsHolder(t.runs[i], queue, key) then t.runs[i].(record := InterruptRecord(t.runs[i].record, now))
                 else t.runs[i])
  }

  function Insert(t: Table, id: Id, r: NewRun, now: Instant): Table {
    Table(t.runs[id := Entry(QueuedRecord(id, r, now), t.nextSeq)],
          if r.idempotencyKey.Some? then t.byKey[QueueKey(r.queue, r.idempotencyKey.value) := id] else t.byKey,
          t.nextSeq + 1)
  }

  /** The run an idempotency key already names, if it is still there. */
  function Duplicate(t: Table, r: NewRun): Option<Id> {
    if r.idempotencyKey.None? then None else
      var k := QueueKey(r.queue, r.idempotencyKey.value);
      if k in t.byKey && t.byKey[k] in t.runs then Some(t.byKey[k]) else None
  }

  predicate HasHolder(t: Table, queue: string, key: string) {
    exists j :: j in t.runs && IsHolder(t.runs[j], queue, key)
  }

  /** The new run is refused because an unfinished one holds its key. */
  predicate Conflicts(t: Table, r: NewRun) {
    r.onConflict == Reject && r.concurrencyKey.Some? && HasHolder(t, r.queue, r.concurrencyKey.value)
  }

  predicate Creates(t: Table, r: NewRun) {
    ValidRun(r) && Duplicate(t, r).None? && !Conflicts(t, r)
  }

  function Enqueued(t: Table, id: Id, r: NewRun, now: Instant): Table {
    if !Creates(t, r) then t
    else
      var cleared :=
        if r.onConflict == Interrupt && r.concurrencyKey.Some? then InterruptHolders(t, r.queue, r.concurrencyKey.value, now)
        else t;
      Insert(cleared, id, r, now)
  }

  // ---- Pruning ----

  predicate Prunable(e: Entry, before: Instant) {
    IsTerminal(e.record.state) && e.record.updatedAt < before
  }

  function KeyOf(r: NewRun): set<QueueKey> {
    if r.idempotencyKey.Some? then {QueueKey(r.queue, r.idempotencyKey.value)} else {}
  }

  /** The idempotency keys of some runs. */
  function KeysOf(runs: map<Id, Entry>, ids: set<Id>): set<QueueKey> {
    set i, k | i in ids && i in runs && k in KeyOf(runs[i].record.run) :: k
  }

  function PrunableRuns(t: Table, before: Instant): set<Id> {
    set i | i in t.runs && Prunable(t.runs[i], before)
  }

  function Without(t: Table, gone: set<Id>): Table {
    t.(runs := t.runs - gone, byKey := t.byKey - KeysOf(t.runs, gone))
  }

  function PrunedTable(t: Table, before: Instant): Table {
    Without(t, PrunableRuns(t, before))
  }

  // ---- Operations ----

  datatype Operation =
    | Enqueue(id: Id, run: NewRun)
    | Claim(queue: string, worker: string, ttl: nat)
    | Heartbeat(id: Id, epoch: nat, ttl: nat)
    | SetCheckpoint(id: Id, epoch: nat, checkpoint: Value)
    | Wait(id: Id, epoch: nat, until: Option<Instant>)
    | Wake(id: Id)
    | Finish(id: Id, epoch: nat, outcome: RunOutcome)
    | RequestCancel(id: Id)
    | Prune(before: Instant)

  /** What the invariant below asks of the order: no two runs share a sequence number. */
  predicate DistinctOrders(t: Table) {
    forall i, j :: i in t.runs && j in t.runs && i != j ==> t.runs[i].seqNo != t.runs[j].seqNo
  }

  lemma OldestExists(t: Table, ids: set<Id>) returns (m: Id)
    requires ids != {} && forall i :: i in ids ==> i in t.runs
    requires DistinctOrders(t)
    ensures m in ids && forall i :: i in ids && i != m ==> OrderLess(t.runs[m], t.runs[i])
  {
    m :| m in ids;
    var rest := ids - {m};
    if rest != {} {
      var n := OldestExists(t, rest);
      if OrderLess(t.runs[n], t.runs[m]) {
        m := n;
      }
    }
  }

  lemma Arrange(t: Table, ids: set<Id>) returns (cs: seq<Id>)
    requires forall i :: i in ids ==> i in t.runs
    requires DistinctOrders(t)
    ensures InOrder(t, ids, cs)
  {
    if ids == {} {
      cs := [];
    } else {
      var m := OldestExists(t, ids);
      var rest := Arrange(t, ids - {m});
      cs := [m] + rest;
      assert InOrder(t, ids, cs) by {
        forall i, j | 0 <= i < j < |cs| ensures cs[i] != cs[j] && OrderLess(t.runs[cs[i]], t.runs[cs[j]]) {
          assert cs[j] == rest[j - 1] && rest[j - 1] in ids - {m};
          if i > 0 {
            assert cs[i] == rest[i - 1];
          }
        }
      }
    }
  }

  lemma HasFirst(t: Table, ids: set<Id>, a: seq<Id>)
    requires InOrder(t, ids, a) && a != []
    ensures a[0] in ids
  {
    assert a[0] in a;
  }

  lemma FirstIsOldest(t: Table, ids: set<Id>, a: seq<Id>, b: seq<Id>)
    requires InOrder(t, ids, a) && InOrder(t, ids, b) && a != []
    ensures b != [] && a[0] == b[0]
  {
    assert a[0] in a;
    assert b[0] in b;
    var i :| 0 <= i < |a| && a[i] == b[0];
    var j :| 0 <= j < |b| && b[j] == a[0];
    assert i > 0 ==> OrderLess(t.runs[a[0]], t.runs[b[0]]);
    assert j > 0 ==> OrderLess(t.runs[b[0]], t.runs[a[0]]);
  }

  lemma InOrderTail(t: Table, ids: set<Id>, a: seq<Id>)
    requires InOrder(t, ids, a) && a != []
    ensures InOrder(t, ids - {a[0]}, a[1..])
  {
    forall i ensures i in a[1..] <==> i in ids - {a[0]} {
      if i in ids && i != a[0] {
        var k :| 0 <= k < |a| && a[k] == i;
        assert a[1..][k - 1] == i;
      }
      if i in a[1..] {
        var k :| 0 <= k < |a[1..]| && a[1..][k] == i;
        assert a[k + 1] == i && a[k + 1] in a;
      }
    }
  }

  /** A set of runs has one order. */
  lemma {:induction false} InOrderIsUnique(t: Table, ids: set<Id>, a: seq<Id>, b: seq<Id>)
    requires InOrder(t, ids, a) && InOrder(t, ids, b)
    ensures a == b
    decreases |a|
  {
    if a == [] {
      if b != [] {
        HasFirst(t, ids, b);
      }
    } else {
      assert a[0] in a;
      FirstIsOldest(t, ids, a, b);
      InOrderTail(t, ids, a);
      InOrderTail(t, ids, b);
      InOrderIsUnique(t, ids - {a[0]}, a[1..], b[1..]);
      assert a == [a[0]] + a[1..] && b == [b[0]] + b[1..];
    }
  }

  lemma ArrangeExists(t: Table, ids: set<Id>)
    requires forall i :: i in ids ==> i in t.runs
    requires DistinctOrders(t)
    ensures exists cs :: InOrder(t, ids, cs)
  {
    var cs := Arrange(t, ids);
  }

  ghost function Candidates(t: Table, queue: string): (cs: seq<Id>)
    requires DistinctOrders(t)
    ensures InOrder(t, CandidateSet(t, queue), cs)
  {
    ArrangeExists(t, CandidateSet(t, queue));
    var cs :| InOrder(t, CandidateSet(t, queue), cs);
    cs
  }

  ghost function ClaimResult(t: Table, queue: string, worker: string, now: Instant, ttl: nat): (Table, Option<Id>)
    requires DistinctOrders(t)
  {
    ClaimOver(t, Candidates(t, queue), worker, now, ttl)
  }

  /** The table after one operation; `last` is the last instant a timestamp can hold. */
  ghost function Next(t: Table, op: Operation, now: Instant, last: Instant): Table
    requires DistinctOrders(t)
  {
    match op
    case Enqueue(id, r) => Enqueued(t, id, r, now)
    case Claim(queue, worker, ttl) =>
      if GoodTtl(now, ttl, last) then ClaimResult(t, queue, worker, now, ttl).0 else t
    case Heartbeat(id, epoch, ttl) =>
      if GoodTtl(now, ttl, last) && Fenced(t, id, epoch) then Put(t, id, HeartbeatRecord(t.runs[id].record, now, ttl)) else t
    case SetCheckpoint(id, epoch, cp) =>
      if Fenced(t, id, epoch) then Put(t, id, Touch(t.runs[id].record.(checkpoint := Some(cp)), now)) else t
    case Wait(id, epoch, until) =>
      if Fenced(t, id, epoch) then Put(t, id, WaitRecord(t.runs[id].record, now, until)) else t
    case Wake(id) =>
      if id in t.runs then Put(t, id, WakeRecord(t.runs[id].record, now)) else t
    case Finish(id, epoch, o) =>
      if Fenced(t, id, epoch) then Put(t, id, FinishRecord(t.runs[id].record, now, o)) else t
    case RequestCancel(id) =>
      if id in t.runs then Put(t, id, CancelRecord(t.runs[id].record, now)) else t
    case Prune(before) => PrunedTable(t, before)
  }

  /** What a fenced write answers when it is refused. */
  function Refusal(t: Table, id: Id, epoch: nat): Reply {
    if id in t.runs then StaleEpoch(id, epoch) else NotFound(id)
  }
}
