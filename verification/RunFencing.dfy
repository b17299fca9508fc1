/** What every run of the durable run queue keeps (adk-core/src/run_store.rs): the table's invariant,
    fencing, one terminal outcome, bounded attempts and idempotency keys. */
module RunFencing {
  import opened RunQueue
  import opened Wrappers

  // ---- The table's invariant ----

  ghost predicate GoodRecord(id: Id, e: Entry) {
    var r := e.record;
    && r.runId == id
    && ValidRun(r.run)
    && r.attempt <= r.run.maxAttempts
    && (r.state == Queued ==> r.attempt < r.run.maxAttempts)
    && (r.state == Running <==> r.leaseOwner.Some?)
    && (r.state == Running <==> r.leaseExpiresAt.Some?)
    && (r.wakePending ==> r.state == Running || r.state == Failed)
  }

  ghost predicate GoodRecords(t: Table) {
    forall i :: i in t.runs ==> GoodRecord(i, t.runs[i])
  }

  ghost predicate GoodSeqs(t: Table) {
    forall i :: i in t.runs ==> t.runs[i].seqNo < t.nextSeq
  }

  /** Every idempotency key names the one run that carries it. */
  ghost predicate GoodKeys(t: Table) {
    && (forall k :: k in t.byKey ==>
          t.byKey[k] in t.runs && t.runs[t.byKey[k]].record.run.queue == k.queue &&
          t.runs[t.byKey[k]].record.run.idempotencyKey == Some(k.key))
    && (forall i :: i in t.runs ==>
          forall k :: k in KeyOf(t.runs[i].record.run) ==> k in t.byKey && t.byKey[k] == i)
  }

  ghost predicate Valid(t: Table) {
    GoodRecords(t) && GoodSeqs(t) && DistinctOrders(t) && GoodKeys(t)
  }

  const EMPTY: Table := Table(map[], map[], 0)

  lemma EmptyIsValid()
    ensures Valid(EMPTY)
  {
  }

  /** An operation changes a run only in place: the rest of the table and the run's own order stay. */
  ghost predicate InPlace(t: Table, u: Table) {
    && u.runs.Keys == t.runs.Keys && u.byKey == t.byKey && u.nextSeq == t.nextSeq
    && forall i :: i in t.runs ==>
         && u.runs[i].seqNo == t.runs[i].seqNo
         && u.runs[i].record.run == t.runs[i].record.run
         && u.runs[i].record.createdAt == t.runs[i].record.createdAt
         && GoodRecord(i, u.runs[i])
  }

  lemma InPlaceValid(t: Table, u: Table)
    requires Valid(t) && InPlace(t, u)
    ensures Valid(u)
  {
  }

  lemma PutInPlace(t: Table, id: Id, r: Record)
    requires Valid(t) && id in t.runs
    requires r.run == t.runs[id].record.run && r.createdAt == t.runs[id].record.createdAt
    requires GoodRecord(id, Entry(r, 0))
    ensures InPlace(t, Put(t, id, r))
  {
  }

  lemma InPlaceChains(t: Table, u: Table, v: Table)
    requires InPlace(t, u) && InPlace(u, v)
    ensures InPlace(t, v)
  {
  }

  // ---- Claims ----

  /** The claim can take the run: it is passed over neither now nor for want of attempts. */
  predicate Takes(t: Table, e: Entry, now: Instant) {
    !PassedOver(t, e, now) && !Exhausted(e)
  }

  /** The claim fails the run: its last attempt's lease has expired. */
  predicate Expires(e: Entry, now: Instant) {
    Exhausted(e) && (e.record.leaseExpiresAt.None? || e.record.leaseExpiresAt.value <= now)
  }

  ghost predicate Untaken(e: Entry, f: Entry, now: Instant) {
    f == e || (Expires(e, now) && f == e.(record := ExhaustedRecord(e.record, now)))
  }

  ghost predicate IsTaken(t: Table, u: Table, id: Id, cs: seq<Id>, worker: string, now: Instant, ttl: nat) {
    && id in cs && id in t.runs && id in u.runs
    && !IsTerminal(t.runs[id].record.state)
    && u.runs[id].record == ClaimedRecord(t.runs[id].record, worker, now, ttl)
  }

  /** What a claim over the candidates `cs` does: it fails some expired runs, claims at most one run,
      and leaves every other as it was. */
  ghost predicate ClaimEffect(t: Table, cs: seq<Id>, u: Table, who: Option<Id>, worker: string, now: Instant, ttl: nat) {
    && InPlace(t, u)
    && (forall i :: i in t.runs && i !in cs ==> u.runs[i] == t.runs[i])
    && (forall i :: i in t.runs && Some(i) != who ==> Untaken(t.runs[i], u.runs[i], now))
    && (who.None? || IsTaken(t, u, who.value, cs, worker, now, ttl))
  }

  lemma ClaimEffectSkips(t: Table, cs: seq<Id>, u: Table, who: Option<Id>, worker: string, now: Instant, ttl: nat)
    requires cs != [] && ClaimEffect(t, cs[1..], u, who, worker, now, ttl)
    ensures ClaimEffect(t, cs, u, who, worker, now, ttl)
  {
    assert forall i :: i in cs[1..] ==> i in cs;
  }

  lemma {:induction false} OthersAfterFailing(t: Table, c: Id, u: Table, who: Option<Id>, cs: seq<Id>, now: Instant)
    requires c in t.runs && cs != [] && cs[0] == c && c !in cs[1..] && Expires(t.runs[c], now)
    requires u.runs.Keys == t.runs.Keys
    requires var mid := Put(t, c, ExhaustedRecord(t.runs[c].record, now));
             && (forall i :: i in mid.runs && i !in cs[1..] ==> u.runs[i] == mid.runs[i])
             && (forall i :: i in mid.runs && Some(i) != who ==> Untaken(mid.runs[i], u.runs[i], now))
    ensures forall i :: i in t.runs && i !in cs ==> u.runs[i] == t.runs[i]
    ensures forall i :: i in t.runs && Some(i) != who ==> Untaken(t.runs[i], u.runs[i], now)
  {
    var mid := Put(t, c, ExhaustedRecord(t.runs[c].record, now));
    assert forall i :: i in cs <==> i == c || i in cs[1..];
    assert u.runs[c] == mid.runs[c];
    forall i | i in t.runs
      ensures i !in cs ==> u.runs[i] == t.runs[i]
      ensures Some(i) != who ==> Untaken(t.runs[i], u.runs[i], now)
    {
      assert i != c ==> mid.runs[i] == t.runs[i];
    }
  }

  lemma TakenAfterFailing(t: Table, c: Id, u: Table, who: Option<Id>, cs: seq<Id>, worker: string, now: Instant, ttl: nat)
    requires c in t.runs && cs != [] && cs[0] == c && c !in cs[1..]
    requires who.Some? ==>
               IsTaken(Put(t, c, ExhaustedRecord(t.runs[c].record, now)), u, who.value, cs[1..], worker, now, ttl)
    ensures who.Some? ==> IsTaken(t, u, who.value, cs, worker, now, ttl)
  {
    if who.Some? {
      assert who.value in cs && who.value != c;
    }
  }

  lemma {:induction false} ClaimEffectFails(t: Table, cs: seq<Id>, u: Table, who: Option<Id>, worker: string, now: Instant, ttl: nat)
    requires Valid(t) && cs != [] && cs[0] in t.runs && cs[0] !in cs[1..]
    requires Expires(t.runs[cs[0]], now)
    requires var mid := Put(t, cs[0], ExhaustedRecord(t.runs[cs[0]].record, now));
             InPlace(t, mid) && ClaimEffect(mid, cs[1..], u, who, worker, now, ttl)
    ensures ClaimEffect(t, cs, u, who, worker, now, ttl)
  {
    var c := cs[0];
    var mid := Put(t, c, ExhaustedRecord(t.runs[c].record, now));
    InPlaceChains(t, mid, u);
    OthersAfterFailing(t, c, u, who, cs, now);
    TakenAfterFailing(t, c, u, who, cs, worker, now, ttl);
  }

  lemma ClaimEffectTakes(t: Table, cs: seq<Id>, worker: string, now: Instant, ttl: nat)
    requires Valid(t) && cs != [] && cs[0] in t.runs && Takes(t, t.runs[cs[0]], now)
    ensures ClaimEffect(t, cs, Put(t, cs[0], ClaimedRecord(t.runs[cs[0]].record, worker, now, ttl)), Some(cs[0]), worker, now, ttl)
  {
    assert GoodRecord(cs[0], t.runs[cs[0]]);
    PutInPlace(t, cs[0], ClaimedRecord(t.runs[cs[0]].record, worker, now, ttl));
    assert cs[0] in cs;
  }

  predicate NoRepeats(cs: seq<Id>) {
    forall i, j :: 0 <= i < j < |cs| ==> cs[i] != cs[j]
  }

  lemma {:induction false} ClaimHasEffect(t: Table, cs: seq<Id>, worker: string, now: Instant, ttl: nat)
    requires Valid(t) && NoRepeats(cs) && forall c :: c in cs ==> c in t.runs
    ensures var (u, who) := ClaimOver(t, cs, worker, now, ttl); ClaimEffect(t, cs, u, who, worker, now, ttl)
    decreases |cs|
  {
    if cs != [] {
      var c := cs[0];
      var e := t.runs[c];
      assert GoodRecord(c, e);
      var (u, who) := ClaimOver(t, cs, worker, now, ttl);
      if PassedOver(t, e, now) {
        ClaimHasEffect(t, cs[1..], worker, now, ttl);
        ClaimEffectSkips(t, cs, u, who, worker, now, ttl);
      } else if Exhausted(e) {
        var mid := Put(t, c, ExhaustedRecord(e.record, now));
        PutInPlace(t, c, ExhaustedRecord(e.record, now));
        InPlaceValid(t, mid);
        ClaimHasEffect(mid, cs[1..], worker, now, ttl);
        ClaimEffectFails(t, cs, u, who, worker, now, ttl);
      } else {
        ClaimEffectTakes(t, cs, worker, now, ttl);
      }
    }
  }

  // ---- Every operation keeps the table valid ----

  lemma InterruptInPlace(t: Table, queue: string, key: string, now: Instant)
    requires Valid(t)
    ensures InPlace(t, InterruptHolders(t, queue, key, now))
  {
    var u := InterruptHolders(t, queue, key, now);
    forall i | i in t.runs ensures GoodRecord(i, u.runs[i]) {
      assert GoodRecord(i, t.runs[i]);
    }
  }

  /** The table a new run is inserted into. */
  function Cleared(t: Table, r: NewRun, now: Instant): Table {
    if r.onConflict == Interrupt && r.concurrencyKey.Some? then InterruptHolders(t, r.queue, r.concurrencyKey.value, now) else t
  }

  lemma {:induction false} ClearedInPlace(t: Table, r: NewRun, now: Instant)
    requires Valid(t)
    ensures InPlace(t, Cleared(t, r, now)) && Valid(Cleared(t, r, now))
  {
    if r.onConflict == Interrupt && r.concurrencyKey.Some? {
      InterruptInPlace(t, r.queue, r.concurrencyKey.value, now);
    } else {
      forall i | i in t.runs ensures GoodRecord(i, t.runs[i]) {
      }
    }
    InPlaceValid(t, Cleared(t, r, now));
  }

  lemma InsertKeepsKeys(t: Table, id: Id, r: NewRun, now: Instant)
    requires GoodKeys(t) && id !in t.runs && Duplicate(t, r).None?
    ensures GoodKeys(Insert(t, id, r, now))
  {
    var u := Insert(t, id, r, now);
    forall i | i in u.runs
      ensures forall k :: k in KeyOf(u.runs[i].record.run) ==> k in u.byKey && u.byKey[k] == i
    {
      if i != id {
        assert u.runs[i] == t.runs[i];
      }
    }
  }

  lemma {:induction false} InsertKeepsValid(t: Table, id: Id, r: NewRun, now: Instant)
    requires Valid(t) && id !in t.runs && ValidRun(r) && Duplicate(t, r).None?
    ensures Valid(Insert(t, id, r, now))
  {
    var u := Insert(t, id, r, now);
    forall i | i in u.runs ensures GoodRecord(i, u.runs[i]) && u.runs[i].seqNo < u.nextSeq {
      if i != id {
        assert GoodRecord(i, t.runs[i]);
      }
    }
    InsertKeepsKeys(t, id, r, now);
  }

  lemma {:induction false} EnqueueKeepsValid(t: Table, id: Id, r: NewRun, now: Instant)
    requires Valid(t) && id !in t.runs
    ensures Valid(Enqueued(t, id, r, now))
  {
    if Creates(t, r) {
      ClearedInPlace(t, r, now);
      InsertKeepsValid(Cleared(t, r, now), id, r, now);
    }
  }

  lemma PruneKeepsValid(t: Table, before: Instant)
    requires Valid(t)
    ensures Valid(PrunedTable(t, before))
  {
    var u := PrunedTable(t, before);
    var gone := PrunableRuns(t, before);
    forall k | k in u.byKey ensures t.byKey[k] in u.runs {
      assert k in KeyOf(t.runs[t.byKey[k]].record.run);
    }
    forall i | i in u.runs
      ensures forall k :: k in KeyOf(u.runs[i].record.run) ==> k in u.byKey && u.byKey[k] == i
    {
      forall k | k in KeyOf(u.runs[i].record.run) ensures k in u.byKey && u.byKey[k] == i {
        assert k in t.byKey && t.byKey[k] == i;
        assert forall j :: j in t.runs && k in KeyOf(t.runs[j].record.run) ==> t.byKey[k] == j;
      }
    }
  }

  lemma ClaimKeepsValid(t: Table, queue: string, worker: string, now: Instant, ttl: nat)
    requires Valid(t)
    ensures InPlace(t, ClaimResult(t, queue, worker, now, ttl).0)
    ensures Valid(ClaimResult(t, queue, worker, now, ttl).0)
  {
    ClaimHasEffect(t, Candidates(t, queue), worker, now, ttl);
    InPlaceValid(t, ClaimResult(t, queue, worker, now, ttl).0);
  }

  predicate EnqueuesFresh(t: Table, op: Operation) {
    op.Enqueue? ==> op.id !in t.runs
  }

  predicate OnOneRun(op: Operation) {
    op.Heartbeat? || op.SetCheckpoint? || op.Wait? || op.Wake? || op.Finish? || op.RequestCancel?
  }

  /** What an operation on one run makes of its record. */
  function NewRecord(r: Record, op: Operation, now: Instant): Record
    requires OnOneRun(op)
  {
    match op
    case Heartbeat(_, _, ttl) => HeartbeatRecord(r, now, ttl)
    case SetCheckpoint(_, _, cp) => Touch(r.(checkpoint := Some(cp)), now)
    case Wait(_, _, until) => WaitRecord(r, now, until)
    case Wake(_) => WakeRecord(r, now)
    case Finish(_, _, o) => FinishRecord(r, now, o)
    case RequestCancel(_) => CancelRecord(r, now)
  }

  predicate IsFencedWrite(op: Operation) {
    op.Heartbeat? || op.SetCheckpoint? || op.Wait? || op.Finish?
  }

  /** The operation reaches its run. */
  predicate Lands(t: Table, op: Operation, now: Instant, last: Instant)
    requires OnOneRun(op)
  {
    if IsFencedWrite(op) then Fenced(t, op.id, op.epoch) && (op.Heartbeat? ==> GoodTtl(now, op.ttl, last))
    else op.id in t.runs
  }

  lemma NewRecordGood(id: Id, e: Entry, op: Operation, now: Instant)
    requires OnOneRun(op) && GoodRecord(id, e) && (IsFencedWrite(op) ==> e.record.state == Running)
    ensures GoodRecord(id, Entry(NewRecord(e.record, op, now), 0))
    ensures NewRecord(e.record, op, now).run == e.record.run
    ensures NewRecord(e.record, op, now).createdAt == e.record.createdAt
  {
  }

  lemma OneRunNext(t: Table, op: Operation, now: Instant, last: Instant)
    requires DistinctOrders(t) && OnOneRun(op)
    ensures Next(t, op, now, last) ==
            if Lands(t, op, now, last) then Put(t, op.id, NewRecord(t.runs[op.id].record, op, now)) else t
  {
  }

  lemma {:induction false} OneRunInPlace(t: Table, op: Operation, now: Instant, last: Instant)
    requires Valid(t) && OnOneRun(op)
    ensures InPlace(t, Next(t, op, now, last))
  {
    OneRunNext(t, op, now, last);
    forall i | i in t.runs ensures GoodRecord(i, t.runs[i]) {
    }
    if Lands(t, op, now, last) {
      NewRecordGood(op.id, t.runs[op.id], op, now);
      PutInPlace(t, op.id, NewRecord(t.runs[op.id].record, op, now));
    }
  }

  lemma {:induction false} NextKeepsValid(t: Table, op: Operation, now: Instant, last: Instant)
    requires Valid(t) && EnqueuesFresh(t, op)
    ensures Valid(Next(t, op, now, last))
  {
    match op
    case Enqueue(id, r) => EnqueueKeepsValid(t, id, r, now);
    case Claim(queue, worker, ttl) =>
      if GoodTtl(now, ttl, last) {
        ClaimKeepsValid(t, queue, worker, now, ttl);
      }
    case Prune(before) => PruneKeepsValid(t, before);
    case _ =>
      OneRunInPlace(t, op, now, last);
      InPlaceValid(t, Next(t, op, now, last));
  }

  // ---- What one step does to one run ----

  /** The changes a step can make to a run that stays in the table. */
  ghost predicate RunStep(r: Record, s: Record) {
    && s.leaseEpoch >= r.leaseEpoch
    && (IsTerminal(r.state) ==> s == r)
    && (r.state != Running && s.state == Running ==> s.leaseEpoch > r.leaseEpoch)
    && (s.leaseEpoch > r.leaseEpoch ==> s.state == Running && s.leaseEpoch == r.leaseEpoch + 1)
    && r.attempt <= s.attempt <= r.attempt + 1
  }

  lemma EnqueueRunStep(t: Table, other: Id, r: NewRun, now: Instant, id: Id)
    requires id in t.runs && id != other
    ensures id in Enqueued(t, other, r, now).runs
    ensures RunStep(t.runs[id].record, Enqueued(t, other, r, now).runs[id].record)
  {
  }

  lemma NewRecordStep(r: Record, op: Operation, now: Instant)
    requires OnOneRun(op) && (IsFencedWrite(op) ==> r.state == Running)
    ensures RunStep(r, NewRecord(r, op, now))
  {
  }

  lemma {:induction false} OneRunStep(t: Table, op: Operation, now: Instant, last: Instant, id: Id)
    requires Valid(t) && OnOneRun(op) && id in t.runs
    ensures id in Next(t, op, now, last).runs
    ensures RunStep(t.runs[id].record, Next(t, op, now, last).runs[id].record)
  {
    OneRunNext(t, op, now, last);
    if Lands(t, op, now, last) && id == op.id {
      NewRecordStep(t.runs[id].record, op, now);
    }
  }

  lemma UntakenRunStep(e: Entry, f: Entry, now: Instant)
    requires Untaken(e, f, now)
    ensures RunStep(e.record, f.record)
  {
  }

  lemma {:induction false} ClaimRunStep(
      t: Table, cs: seq<Id>, u: Table, who: Option<Id>, worker: string, now: Instant, ttl: nat, id: Id)
    requires ClaimEffect(t, cs, u, who, worker, now, ttl) && id in t.runs
    ensures id in u.runs && RunStep(t.runs[id].record, u.runs[id].record)
  {
    if Some(id) != who {
      assert Untaken(t.runs[id], u.runs[id], now);
      UntakenRunStep(t.runs[id], u.runs[id], now);
    }
  }

  lemma {:induction false} NextRunStep(t: Table, op: Operation, now: Instant, last: Instant, id: Id)
    requires Valid(t) && EnqueuesFresh(t, op)
    requires id in t.runs && id in Next(t, op, now, last).runs
    ensures RunStep(t.runs[id].record, Next(t, op, now, last).runs[id].record)
  {
    match op
    case Enqueue(other, r) => EnqueueRunStep(t, other, r, now, id);
    case Claim(queue, worker, ttl) =>
      if GoodTtl(now, ttl, last) {
        ClaimHasEffect(t, Candidates(t, queue), worker, now, ttl);
        var (u, who) := ClaimResult(t, queue, worker, now, ttl);
        ClaimRunStep(t, Candidates(t, queue), u, who, worker, now, ttl, id);
      }
    case Prune(before) => assert PrunedTable(t, before).runs[id] == t.runs[id];
    case _ => OneRunStep(t, op, now, last, id);
  }

  // ---- Runs of the queue ----

  datatype Event = Event(op: Operation, now: Instant)

  /** Run identifiers are generated afresh: none is used twice. */
  predicate FreshIds(t: Table, es: seq<Event>) {
    && (forall i :: 0 <= i < |es| && es[i].op.Enqueue? ==> es[i].op.id !in t.runs)
    && (forall i, j :: 0 <= i < j < |es| && es[i].op.Enqueue? && es[j].op.Enqueue? ==> es[i].op.id != es[j].op.id)
  }

  lemma NextNames(t: Table, op: Operation, now: Instant, last: Instant, id: Id)
    requires Valid(t) && id in Next(t, op, now, last).runs
    ensures id in t.runs || (op.Enqueue? && op.id == id)
  {
    if op.Claim? && GoodTtl(now, op.ttl, last) {
      ClaimKeepsValid(t, op.queue, op.worker, now, op.ttl);
    }
  }

  lemma FreshTail(t: Table, es: seq<Event>, last: Instant)
    requires Valid(t) && FreshIds(t, es) && es != []
    ensures FreshIds(Next(t, es[0].op, es[0].now, last), es[1..])
  {
    var u := Next(t, es[0].op, es[0].now, last);
    var rest := es[1..];
    forall i | 0 <= i < |rest| && rest[i].op.Enqueue? ensures rest[i].op.id !in u.runs {
      assert rest[i] == es[i + 1];
      if rest[i].op.id in u.runs {
        NextNames(t, es[0].op, es[0].now, last, rest[i].op.id);
      }
    }
  }

  ghost function Run(t: Table, es: seq<Event>, last: Instant): (u: Table)
    requires Valid(t) && FreshIds(t, es)
    ensures Valid(u)
    decreases |es|
  {
    if es == [] then t else
      NextKeepsValid(t, es[0].op, es[0].now, last);
      FreshTail(t, es, last);
      Run(Next(t, es[0].op, es[0].now, last), es[1..], last)
  }

  // ---- Fencing ----

  /** No worker can write this run at this epoch: the run is gone, or claimed again since, or not
      running. */
  predicate Superseded(t: Table, id: Id, epoch: nat) {
    id in t.runs ==>
      var r := t.runs[id].record;
      r.leaseEpoch > epoch || (r.leaseEpoch == epoch && r.state != Running)
  }

  lemma SupersededStep(t: Table, op: Operation, now: Instant, last: Instant, id: Id, epoch: nat)
    requires Valid(t) && EnqueuesFresh(t, op) && Superseded(t, id, epoch)
    requires op.Enqueue? ==> op.id != id
    ensures Superseded(Next(t, op, now, last), id, epoch)
  {
    var u := Next(t, op, now, last);
    if id in u.runs {
      NextNames(t, op, now, last, id);
      NextRunStep(t, op, now, last, id);
    }
  }

  /** A worker that has lost its run, whether to another claim or to a finished state, can never write
      it again: in every later state its write is refused and changes nothing. */
  lemma {:induction false} SupersededForever(t: Table, es: seq<Event>, last: Instant, id: Id, epoch: nat, op: Operation, now: Instant)
    requires Valid(t) && FreshIds(t, es) && Superseded(t, id, epoch)
    requires forall i :: 0 <= i < |es| && es[i].op.Enqueue? ==> es[i].op.id != id
    requires IsFencedWrite(op) && op.id == id && op.epoch == epoch
    ensures var u := Run(t, es, last); !Fenced(u, id, epoch) && Next(u, op, now, last) == u
    decreases |es|
  {
    if es == [] {
      OneRunNext(t, op, now, last);
    } else {
      NextKeepsValid(t, es[0].op, es[0].now, last);
      FreshTail(t, es, last);
      SupersededStep(t, es[0].op, es[0].now, last, id, epoch);
      SupersededForever(Next(t, es[0].op, es[0].now, last), es[1..], last, id, epoch, op, now);
    }
  }

  /** A claim supersedes every earlier epoch of the run, and its own epoch is accepted. */
  lemma {:induction false} ClaimSupersedes(t: Table, queue: string, worker: string, now: Instant, ttl: nat, epoch: nat)
    requires Valid(t)
    ensures var (u, who) := ClaimResult(t, queue, worker, now, ttl);
            who.Some? ==>
              && who.value in t.runs && who.value in u.runs
              && u.runs[who.value].record.leaseEpoch == t.runs[who.value].record.leaseEpoch + 1
              && Fenced(u, who.value, u.runs[who.value].record.leaseEpoch)
              && (epoch <= t.runs[who.value].record.leaseEpoch ==> Superseded(u, who.value, epoch))
  {
    ClaimHasEffect(t, Candidates(t, queue), worker, now, ttl);
  }

  // ---- One terminal outcome ----

  lemma GoneForever(t: Table, es: seq<Event>, last: Instant, id: Id)
    requires Valid(t) && FreshIds(t, es) && id !in t.runs
    requires forall i :: 0 <= i < |es| && es[i].op.Enqueue? ==> es[i].op.id != id
    ensures id !in Run(t, es, last).runs
    decreases |es|
  {
    if es != [] {
      var u := Next(t, es[0].op, es[0].now, last);
      NextKeepsValid(t, es[0].op, es[0].now, last);
      FreshTail(t, es, last);
      if id in u.runs {
        NextNames(t, es[0].op, es[0].now, last, id);
      }
      GoneForever(u, es[1..], last, id);
    }
  }

  /** A finished run keeps its outcome, and every other field, until it is pruned. */
  lemma {:induction false} TerminalForever(t: Table, es: seq<Event>, last: Instant, id: Id)
    requires Valid(t) && FreshIds(t, es) && id in t.runs && IsTerminal(t.runs[id].record.state)
    ensures var u := Run(t, es, last); id in u.runs ==> u.runs[id].record == t.runs[id].record
    decreases |es|
  {
    if es != [] {
      var u := Next(t, es[0].op, es[0].now, last);
      NextKeepsValid(t, es[0].op, es[0].now, last);
      FreshTail(t, es, last);
      if id in u.runs {
        NextRunStep(t, es[0].op, es[0].now, last, id);
        TerminalForever(u, es[1..], last, id);
      } else {
        GoneForever(u, es[1..], last, id);
      }
    }
  }

  /** No run of the queue takes more attempts than it may. */
  lemma {:induction false} AttemptsBounded(es: seq<Event>, last: Instant, id: Id)
    requires FreshIds(EMPTY, es)
    ensures Valid(EMPTY)
    ensures var u := Run(EMPTY, es, last);
            id in u.runs ==>
              u.runs[id].record.attempt <= u.runs[id].record.run.maxAttempts &&
              (u.runs[id].record.state == Queued ==> u.runs[id].record.attempt < u.runs[id].record.run.maxAttempts)
  {
    EmptyIsValid();
    var u := Run(EMPTY, es, last);
    assert id in u.runs ==> GoodRecord(id, u.runs[id]);
  }
}
