/** What each operation of the durable run queue does to the runs, told by their fields
    (adk-core/src/run_store.rs), and what a run's final state says about its history. */
module RunEffects {
  import opened RunQueue
  import opened RunFencing
  import opened RunClaims
  import opened Wrappers

  // ---- Finishing ----

  /** The worker's report is taken: the run is running under its epoch. */
  predicate Accepts(t: Table, id: Id, epoch: nat) {
    id in t.runs && t.runs[id].record.state == Running && t.runs[id].record.leaseEpoch == epoch
  }

  /** What an accepted report makes of a run. A success completes it with its result, and a stop cancels it. An
      error is kept; the run is queued again exactly when the error is retryable, attempts are left and no
      cancel was requested, and fails otherwise. Its lease is given up. */
  lemma {:induction false} FinishWrites(t: Table, id: Id, epoch: nat, o: RunOutcome, now: Instant, last: Instant)
    requires Valid(t) && Accepts(t, id, epoch)
    ensures id in Next(t, Finish(id, epoch, o), now, last).runs
    ensures var r, s := t.runs[id].record, Next(t, Finish(id, epoch, o), now, last).runs[id].record;
            && s.leaseOwner == None && s.leaseExpiresAt == None && s.leaseEpoch == r.leaseEpoch
            && s.attempt == r.attempt && s.run == r.run && s.checkpoint == r.checkpoint && s.createdAt == r.createdAt
            && s.updatedAt == now && s.revision == r.revision + 1
            && match o
               case Succeeded(v) => s.state == Completed && s.result == Some(v)
               case Stopped => s.state == Cancelled
               case Errored(message, retryable) =>
                 && s.error == Some(message)
                 && (s.state == Queued <==> retryable && r.attempt < r.run.maxAttempts && !r.cancelRequested)
                 && (s.state == Queued || s.state == Failed)
  {
    OneRunNext(t, Finish(id, epoch, o), now, last);
  }

  predicate ReportsSuccess(t: Table, op: Operation, id: Id, v: Value) {
    op.Finish? && op.id == id && op.outcome == Succeeded(v) && Accepts(t, id, op.epoch)
  }

  predicate IsCompleted(t: Table, id: Id, v: Value) {
    id in t.runs && t.runs[id].record.state == Completed && t.runs[id].record.result == Some(v)
  }

  predicate NotCompleted(t: Table, id: Id) {
    id in t.runs ==> t.runs[id].record.state != Completed
  }

  lemma {:induction false} ClaimCompletesNone(t: Table, queue: string, worker: string, now: Instant, ttl: nat, id: Id)
    requires Valid(t) && NotCompleted(t, id)
    ensures NotCompleted(ClaimResult(t, queue, worker, now, ttl).0, id)
  {
    ClaimHasEffect(t, Candidates(t, queue), worker, now, ttl);
    var (u, who) := ClaimResult(t, queue, worker, now, ttl);
    if id in t.runs && Some(id) != who {
      assert Untaken(t.runs[id], u.runs[id], now);
    }
  }

  lemma {:induction false} EnqueueCompletesNone(t: Table, other: Id, r: NewRun, now: Instant, id: Id)
    requires NotCompleted(t, id)
    ensures NotCompleted(Enqueued(t, other, r, now), id)
  {
  }

  lemma {:induction false} OneRunCompletes(t: Table, op: Operation, now: Instant, last: Instant, id: Id)
    requires Valid(t) && OnOneRun(op) && NotCompleted(t, id)
    ensures var u := Next(t, op, now, last);
            !NotCompleted(u, id) ==> op.Finish? && op.outcome.Succeeded? && ReportsSuccess(t, op, id, op.outcome.value) &&
                                     IsCompleted(u, id, op.outcome.value)
    ensures forall v :: ReportsSuccess(t, op, id, v) ==> IsCompleted(Next(t, op, now, last), id, v)
  {
    OneRunNext(t, op, now, last);
  }

  /** A step completes a run only by an accepted report of its success. */
  lemma {:induction false} StepCompletes(t: Table, op: Operation, now: Instant, last: Instant, id: Id)
    requires Valid(t) && EnqueuesFresh(t, op) && NotCompleted(t, id)
    ensures var u := Next(t, op, now, last);
            !NotCompleted(u, id) ==> op.Finish? && op.outcome.Succeeded? && ReportsSuccess(t, op, id, op.outcome.value) &&
                                     IsCompleted(u, id, op.outcome.value)
    ensures forall v :: ReportsSuccess(t, op, id, v) ==> IsCompleted(Next(t, op, now, last), id, v)
  {
    match op
    case Enqueue(other, r) => EnqueueCompletesNone(t, other, r, now, id);
    case Claim(queue, worker, ttl) =>
      if GoodTtl(now, ttl, last) {
        ClaimCompletesNone(t, queue, worker, now, ttl, id);
      }
    case Prune(before) =>
    case _ => OneRunCompletes(t, op, now, last, id);
  }

  /** Some step of the run was an accepted report that `id` succeeded with `v`. */
  ghost predicate EverReported(t: Table, es: seq<Event>, last: Instant, id: Id, v: Value)
    requires Valid(t) && FreshIds(t, es)
    decreases |es|
  {
    es != [] &&
    (NextKeepsValid(t, es[0].op, es[0].now, last);
     FreshTail(t, es, last);
     ReportsSuccess(t, es[0].op, id, v) || EverReported(Next(t, es[0].op, es[0].now, last), es[1..], last, id, v))
  }

  /** A finished run's reports are no longer accepted. */
  lemma {:induction false} NothingReportedLater(t: Table, es: seq<Event>, last: Instant, id: Id, v: Value)
    requires Valid(t) && FreshIds(t, es)
    requires id in t.runs ==> IsTerminal(t.runs[id].record.state)
    requires forall i :: 0 <= i < |es| && es[i].op.Enqueue? ==> es[i].op.id != id
    ensures !EverReported(t, es, last, id, v)
    decreases |es|
  {
    if es != [] {
      var u := Next(t, es[0].op, es[0].now, last);
      NextKeepsValid(t, es[0].op, es[0].now, last);
      FreshTail(t, es, last);
      if id in u.runs {
        NextNames(t, es[0].op, es[0].now, last, id);
        NextRunStep(t, es[0].op, es[0].now, last, id);
      }
      NothingReportedLater(u, es[1..], last, id, v);
    }
  }

  /** Over every run of the store, a run in the table is completed with a result exactly when an accepted
      report said that it succeeded with that result. */
  lemma {:induction false} CompletedExactly(t: Table, es: seq<Event>, last: Instant, id: Id, v: Value)
    requires Valid(t) && FreshIds(t, es) && NotCompleted(t, id) && id in Run(t, es, last).runs
    ensures IsCompleted(Run(t, es, last), id, v) <==> EverReported(t, es, last, id, v)
    decreases |es|
  {
    if es != [] {
      var e := es[0];
      var u := Next(t, e.op, e.now, last);
      NextKeepsValid(t, e.op, e.now, last);
      FreshTail(t, es, last);
      StepCompletes(t, e.op, e.now, last, id);
      if NotCompleted(u, id) {
        CompletedExactly(u, es[1..], last, id, v);
      } else {
        assert id in t.runs;
        TerminalForever(u, es[1..], last, id);
        NothingReportedLater(u, es[1..], last, id, v);
      }
    }
  }

  /** An accepted report that does not queue the run again decides what the store says of the run from then on:
      completed with the reported result, cancelled after a stop, or failed with the reported message. */
  lemma {:induction false} OutcomeStays(t: Table, es: seq<Event>, last: Instant, id: Id, epoch: nat, o: RunOutcome)
    requires Valid(t) && FreshIds(t, es) && Accepts(t, id, epoch) && es != [] && es[0].op == Finish(id, epoch, o)
    ensures var u := Run(t, es, last);
            id in u.runs ==>
              match o
              case Succeeded(v) => u.runs[id].record.state == Completed && u.runs[id].record.result == Some(v)
              case Stopped => u.runs[id].record.state == Cancelled
              case Errored(message, retryable) =>
                var r := t.runs[id].record;
                !retryable || r.attempt >= r.run.maxAttempts || r.cancelRequested ==>
                  u.runs[id].record.state == Failed && u.runs[id].record.error == Some(message)
  {
    var now := es[0].now;
    var u := Next(t, Finish(id, epoch, o), now, last);
    NextKeepsValid(t, Finish(id, epoch, o), now, last);
    FreshTail(t, es, last);
    FinishWrites(t, id, epoch, o, now, last);
    if IsTerminal(u.runs[id].record.state) {
      TerminalForever(u, es[1..], last, id);
    }
  }

  // ---- Leases ----

  /** A claim leaves alone every run held under a lease that has not run out. */
  lemma {:induction false} LeaseProtects(t: Table, queue: string, worker: string, now: Instant, ttl: nat, id: Id)
    requires Valid(t) && id in t.runs && t.runs[id].record.state == Running
    requires t.runs[id].record.leaseExpiresAt.Some? && t.runs[id].record.leaseExpiresAt.value > now
    ensures var u := ClaimResult(t, queue, worker, now, ttl).0; id in u.runs && u.runs[id] == t.runs[id]
  {
    ClaimHasEffect(t, Candidates(t, queue), worker, now, ttl);
    ClaimTakesOldest(t, queue, worker, now, ttl);
    var (u, who) := ClaimResult(t, queue, worker, now, ttl);
    assert !Claimable(t, id, now);
    assert Some(id) != who;
    assert Untaken(t.runs[id], u.runs[id], now);
  }

  /** A claim gives the run it takes a new epoch and a lease of the asked length to its worker. It counts as an
      attempt unless the run was waiting. */
  lemma {:induction false} ClaimWrites(t: Table, queue: string, worker: string, now: Instant, ttl: nat)
    requires Valid(t)
    ensures var (u, who) := ClaimResult(t, queue, worker, now, ttl);
            who.Some? ==>
              && who.value in t.runs && who.value in u.runs
              && var r, s := t.runs[who.value].record, u.runs[who.value].record;
                 && r.run.queue == queue && !IsTerminal(r.state)
                 && s.state == Running && s.leaseOwner == Some(worker) && s.leaseExpiresAt == Some(now + ttl)
                 && s.leaseEpoch == r.leaseEpoch + 1 && s.notBefore == None
                 && s.attempt == r.attempt + (if r.state == Waiting then 0 else 1)
                 && s.run == r.run && s.checkpoint == r.checkpoint && s.cancelRequested == r.cancelRequested
                 && s.updatedAt == now && s.createdAt == r.createdAt
  {
    ClaimHasEffect(t, Candidates(t, queue), worker, now, ttl);
    var (u, who) := ClaimResult(t, queue, worker, now, ttl);
    if who.Some? {
      assert who.value in CandidateSet(t, queue);
    }
  }

  lemma EarlierInOrder(t: Table, ids: set<Id>, cs: seq<Id>, k: nat, m: nat)
    requires InOrder(t, ids, cs) && k <= m < |cs|
    ensures cs[k] in t.runs && cs[m] in t.runs
    ensures var a, b := t.runs[cs[k]], t.runs[cs[m]];
            cs[k] == cs[m] || a.record.createdAt < b.record.createdAt ||
            (a.record.createdAt == b.record.createdAt && a.seqNo < b.seqNo)
  {
    if k < m {
      assert OrderLess(t.runs[cs[k]], t.runs[cs[m]]);
    }
  }

  /** Of the runs of a queue that can be claimed, a claim takes the one created first, and of those created at
      one instant the one enqueued first. */
  lemma {:induction false} ClaimTakesEarliest(t: Table, queue: string, worker: string, now: Instant, ttl: nat, id: Id)
    requires Valid(t) && id in t.runs && t.runs[id].record.run.queue == queue && Claimable(t, id, now)
    ensures var (u, who) := ClaimResult(t, queue, worker, now, ttl);
            && who.Some? && who.value in t.runs
            && var a, b := t.runs[who.value], t.runs[id];
               who.value == id || a.record.createdAt < b.record.createdAt ||
               (a.record.createdAt == b.record.createdAt && a.seqNo < b.seqNo)
  {
    ClaimTakesOldest(t, queue, worker, now, ttl);
    var cs := Candidates(t, queue);
    var (u, who) := ClaimResult(t, queue, worker, now, ttl);
    assert id in CandidateSet(t, queue) && id in cs;
    var m :| 0 <= m < |cs| && cs[m] == id;
    assert Claimable(t, cs[m], now);
    assert who.Some?;
    var k: nat :| OldestClaimable(t, cs, k, now) && cs[k] == who.value;
    EarlierInOrder(t, CandidateSet(t, queue), cs, k, m);
  }

  /** When a run can be claimed: queued, due, and every older unfinished run of its queue and key on its last
      attempt with an expired lease; parked and past its deadline; or left by its worker, with attempts left. */
  lemma {:induction false} ClaimableMeaning(t: Table, id: Id, now: Instant)
    requires id in t.runs
    ensures var r, o := t.runs[id].record, t.runs[id].seqNo;
            && (r.state == Queued ==>
                  (Claimable(t, id, now) <==>
                   && (r.notBefore == None || r.notBefore.value <= now)
                   && forall j :: j in t.runs && r.run.concurrencyKey.Some? && t.runs[j].record.run.queue == r.run.queue &&
                                  t.runs[j].record.run.concurrencyKey == r.run.concurrencyKey ==>
                        var s := t.runs[j].record;
                        || s.state in {Completed, Failed, Cancelled}
                        || s.createdAt > r.createdAt || (s.createdAt == r.createdAt && t.runs[j].seqNo >= o)
                        || (s.state == Running && s.attempt >= s.run.maxAttempts &&
                            (s.leaseExpiresAt == None || s.leaseExpiresAt.value <= now))))
            && (r.state == Waiting ==> (Claimable(t, id, now) <==> r.notBefore.Some? && r.notBefore.value <= now))
            && (r.state == Running ==>
                  (Claimable(t, id, now) <==>
                   (r.leaseExpiresAt == None || r.leaseExpiresAt.value <= now) && r.attempt < r.run.maxAttempts))
            && (r.state in {Completed, Failed, Cancelled} ==> !Claimable(t, id, now))
  {
  }

  lemma ExpiredBefore(t: Table, ids: set<Id>, cs: seq<Id>, k: nat, now: Instant, id: Id)
    requires InOrder(t, ids, cs) && id in ids && id in t.runs && Expires(t.runs[id], now) && k <= |cs|
    requires k < |cs| ==> t.runs[id].record.createdAt < t.runs[cs[k]].record.createdAt
    ensures id in ExpiredIn(t, cs[..k], now)
  {
    var m :| 0 <= m < |cs| && cs[m] == id;
    assert m < k;
    assert cs[..k][m] == id;
  }

  predicate IsFailed(t: Table, id: Id, now: Instant) {
    id in t.runs && var r := t.runs[id].record;
    r.state == Failed && r.leaseOwner == None && r.leaseExpiresAt == None && r.updatedAt == now
  }

  lemma FailedByAll(t: Table, gone: set<Id>, now: Instant, id: Id)
    requires id in gone && id in t.runs
    ensures IsFailed(FailedAll(t, gone, now), id, now)
  {
  }

  lemma PutKeepsFailed(t: Table, i: Id, r: Record, now: Instant, id: Id)
    requires i in t.runs && i != id && IsFailed(t, id, now)
    ensures IsFailed(Put(t, i, r), id, now)
  {
  }

  /** A run on its last attempt whose lease ran out is failed by every claim of its queue that takes no run
      created before it. */
  lemma {:induction false} ExhaustedFails(t: Table, queue: string, worker: string, now: Instant, ttl: nat, id: Id)
    requires Valid(t) && id in t.runs && t.runs[id].record.run.queue == queue && t.runs[id].record.state == Running
    requires t.runs[id].record.attempt >= t.runs[id].record.run.maxAttempts
    requires t.runs[id].record.leaseExpiresAt == None || t.runs[id].record.leaseExpiresAt.value <= now
    ensures var (u, who) := ClaimResult(t, queue, worker, now, ttl);
            who.None? || (who.value in t.runs && t.runs[id].record.createdAt < t.runs[who.value].record.createdAt) ==>
              && id in u.runs
              && u.runs[id].record.state == Failed && u.runs[id].record.leaseOwner == None
              && u.runs[id].record.leaseExpiresAt == None && u.runs[id].record.updatedAt == now
  {
    ClaimTakesOldest(t, queue, worker, now, ttl);
    var ids, cs := CandidateSet(t, queue), Candidates(t, queue);
    var (u, who) := ClaimResult(t, queue, worker, now, ttl);
    if who.None? {
      ExpiredBefore(t, ids, cs, |cs|, now, id);
      assert cs[..|cs|] == cs;
      FailedByAll(t, ExpiredIn(t, cs, now), now, id);
      assert IsFailed(u, id, now);
    } else {
      var c := who.value;
      var k: nat :| OldestClaimable(t, cs, k, now) && cs[k] == c &&
                    u == Put(FailedAll(t, ExpiredIn(t, cs[..k], now), now), c, ClaimedRecord(t.runs[c].record, worker, now, ttl));
      if t.runs[id].record.createdAt < t.runs[c].record.createdAt {
        var gone := ExpiredIn(t, cs[..k], now);
        ExpiredBefore(t, ids, cs, k, now, id);
        FailedByAll(t, gone, now, id);
        PutKeepsFailed(FailedAll(t, gone, now), c, ClaimedRecord(t.runs[c].record, worker, now, ttl), now, id);
        assert IsFailed(u, id, now);
      }
    }
  }

  /** A heartbeat renews the lease from now and changes nothing else a caller sees. */
  lemma {:induction false} HeartbeatWrites(t: Table, id: Id, epoch: nat, ttl: nat, now: Instant, last: Instant)
    requires Valid(t) && Accepts(t, id, epoch) && ttl > 0 && now + ttl <= last
    ensures id in Next(t, Heartbeat(id, epoch, ttl), now, last).runs
    ensures Next(t, Heartbeat(id, epoch, ttl), now, last).runs[id].record ==
            t.runs[id].record.(leaseExpiresAt := Some(now + ttl), heartbeatAt := Some(now), updatedAt := now,
                               revision := t.runs[id].record.revision + 1)
  {
    OneRunNext(t, Heartbeat(id, epoch, ttl), now, last);
  }

  lemma EnqueueKeepsCheckpoint(t: Table, other: Id, r: NewRun, now: Instant, id: Id)
    requires id in t.runs && id != other
    ensures id in Enqueued(t, other, r, now).runs
    ensures Enqueued(t, other, r, now).runs[id].record.checkpoint == t.runs[id].record.checkpoint
  {
  }

  lemma ClaimKeepsCheckpoint(t: Table, queue: string, worker: string, now: Instant, ttl: nat, id: Id)
    requires Valid(t) && id in t.runs
    ensures var u := ClaimResult(t, queue, worker, now, ttl).0;
            id in u.runs && u.runs[id].record.checkpoint == t.runs[id].record.checkpoint
  {
    ClaimHasEffect(t, Candidates(t, queue), worker, now, ttl);
    var (u, who) := ClaimResult(t, queue, worker, now, ttl);
    if Some(id) != who {
      assert Untaken(t.runs[id], u.runs[id], now);
    }
  }

  lemma {:induction false} OneRunKeepsCheckpoint(t: Table, op: Operation, now: Instant, last: Instant, id: Id)
    requires Valid(t) && OnOneRun(op) && id in t.runs
    ensures id in Next(t, op, now, last).runs
    ensures Next(t, op, now, last).runs[id].record.checkpoint ==
            if op.SetCheckpoint? && op.id == id && Accepts(t, id, op.epoch) then Some(op.checkpoint)
            else t.runs[id].record.checkpoint
  {
    OneRunNext(t, op, now, last);
  }

  /** A checkpoint is kept until another is written: no other operation changes it. */
  lemma {:induction false} CheckpointStays(t: Table, op: Operation, now: Instant, last: Instant, id: Id)
    requires Valid(t) && EnqueuesFresh(t, op) && id in t.runs && id in Next(t, op, now, last).runs
    ensures Next(t, op, now, last).runs[id].record.checkpoint ==
            if op.SetCheckpoint? && op.id == id && Accepts(t, id, op.epoch) then Some(op.checkpoint)
            else t.runs[id].record.checkpoint
  {
    match op
    case Enqueue(other, r) => EnqueueKeepsCheckpoint(t, other, r, now, id);
    case Claim(queue, worker, ttl) =>
      if GoodTtl(now, ttl, last) {
        ClaimKeepsCheckpoint(t, queue, worker, now, ttl, id);
      }
    case Prune(before) => assert PrunedTable(t, before).runs[id] == t.runs[id];
    case _ => OneRunKeepsCheckpoint(t, op, now, last, id);
  }

  // ---- Parking, waking and cancelling ----

  /** A parked run gives up its lease, and can be claimed from its deadline on, at once when a wake was
      pending, and never without either. */
  lemma {:induction false} ParkedUntil(t: Table, id: Id, epoch: nat, until: Option<Instant>, now: Instant, last: Instant, at: Instant)
    requires Valid(t) && Accepts(t, id, epoch)
    ensures var u := Next(t, Wait(id, epoch, until), now, last);
            && id in u.runs
            && u.runs[id].record.state == Waiting && u.runs[id].record.leaseOwner == None
            && u.runs[id].record.leaseExpiresAt == None && !u.runs[id].record.wakePending
            && (Claimable(u, id, at) <==>
                if t.runs[id].record.wakePending then now <= at else until.Some? && until.value <= at)
  {
    OneRunNext(t, Wait(id, epoch, until), now, last);
  }

  /** A wake makes a parked run claimable from now on, marks a running one, and leaves any other alone. */
  lemma {:induction false} WakeWrites(t: Table, id: Id, now: Instant, last: Instant, at: Instant)
    requires Valid(t) && id in t.runs
    ensures var r, u := t.runs[id].record, Next(t, Wake(id), now, last);
            && id in u.runs
            && (r.state == Waiting ==> u.runs[id].record.state == Waiting && (Claimable(u, id, at) <==> now <= at))
            && (r.state == Running ==> u.runs[id].record.state == Running && u.runs[id].record.wakePending)
            && (r.state != Waiting && r.state != Running ==> u.runs[id] == t.runs[id])
  {
    OneRunNext(t, Wake(id), now, last);
  }

  /** Cancelling ends a run that is not running, asks a running one to stop, and leaves a finished one alone. A
      run asked to stop is not retried: its next error fails it. */
  lemma {:induction false} CancelWrites(t: Table, id: Id, now: Instant, last: Instant)
    requires Valid(t) && id in t.runs
    ensures var r, u := t.runs[id].record, Next(t, RequestCancel(id), now, last);
            && id in u.runs
            && (r.state == Queued || r.state == Waiting ==> u.runs[id].record.state == Cancelled)
            && (r.state == Running ==> u.runs[id].record.state == Running && u.runs[id].record.cancelRequested)
            && (IsTerminal(r.state) ==> u.runs[id] == t.runs[id])
  {
    OneRunNext(t, RequestCancel(id), now, last);
  }

  lemma {:induction false} CancelledIsNotRetried(
      t: Table, id: Id, epoch: nat, message: string, retryable: bool, asked: Instant, now: Instant, last: Instant)
    requires Valid(t) && Accepts(t, id, epoch)
    ensures var u := Next(t, RequestCancel(id), asked, last);
            && Valid(u)
            && var v := Next(u, Finish(id, epoch, Errored(message, retryable)), now, last);
               id in v.runs && v.runs[id].record.state == Failed && v.runs[id].record.error == Some(message)
  {
    NextKeepsValid(t, RequestCancel(id), asked, last);
    OneRunNext(t, RequestCancel(id), asked, last);
    FinishWrites(Next(t, RequestCancel(id), asked, last), id, epoch, Errored(message, retryable), now, last);
  }

  // ---- Enqueueing and pruning ----

  /** An enqueue that creates a run adds it as given, queued and unclaimed, behind all others. Under Interrupt
      every unfinished run of its key is cancelled, or asked to stop if it is running; every other run stays. */
  lemma {:induction false} EnqueueWrites(t: Table, id: Id, r: NewRun, now: Instant, j: Id)
    requires Valid(t) && id !in t.runs && Creates(t, r)
    ensures var u := Enqueued(t, id, r, now);
            && id in u.runs && u.runs[id].seqNo == t.nextSeq
            && u.runs[id].record.state == Queued && u.runs[id].record.run == r && u.runs[id].record.notBefore == r.notBefore
            && u.runs[id].record.attempt == 0 && u.runs[id].record.leaseEpoch == 0 && u.runs[id].record.createdAt == now
            && (j in t.runs ==>
                  && j in u.runs
                  && var a, b := t.runs[j].record, u.runs[j].record;
                     if r.onConflict == Interrupt && r.concurrencyKey.Some? && a.run.queue == r.queue &&
                        a.run.concurrencyKey == r.concurrencyKey && !IsTerminal(a.state)
                     then if a.state == Running then b.state == Running && b.cancelRequested else b.state == Cancelled
                     else b == a)
  {
  }

  /** Two runs in the table never share a queue and an idempotency key. */
  lemma {:induction false} IdempotencyKeyNamesOneRun(t: Table, i: Id, j: Id)
    requires Valid(t) && i in t.runs && j in t.runs
    requires t.runs[i].record.run.idempotencyKey.Some?
    requires t.runs[i].record.run.queue == t.runs[j].record.run.queue
    requires t.runs[i].record.run.idempotencyKey == t.runs[j].record.run.idempotencyKey
    ensures i == j
  {
    var k := QueueKey(t.runs[i].record.run.queue, t.runs[i].record.run.idempotencyKey.value);
    assert k in KeyOf(t.runs[i].record.run) && k in KeyOf(t.runs[j].record.run);
  }

  /** An enqueue is answered with an existing run exactly when one of its queue has its idempotency key. */
  lemma {:induction false} DuplicateMeaning(t: Table, r: NewRun)
    requires Valid(t)
    ensures Duplicate(t, r).Some? <==>
            exists i :: i in t.runs && r.idempotencyKey.Some? && t.runs[i].record.run.queue == r.queue &&
                        t.runs[i].record.run.idempotencyKey == r.idempotencyKey
    ensures Duplicate(t, r).Some? ==>
              var i := Duplicate(t, r).value;
              i in t.runs && t.runs[i].record.run.queue == r.queue && t.runs[i].record.run.idempotencyKey == r.idempotencyKey
  {
    if i :| i in t.runs && r.idempotencyKey.Some? && t.runs[i].record.run.queue == r.queue &&
            t.runs[i].record.run.idempotencyKey == r.idempotencyKey {
      var k := QueueKey(r.queue, r.idempotencyKey.value);
      assert k in KeyOf(t.runs[i].record.run);
    }
  }

  lemma HolderMeaning(t: Table, queue: string, key: string)
    ensures HasHolder(t, queue, key) <==>
            exists i :: i in t.runs && t.runs[i].record.run.queue == queue &&
                        t.runs[i].record.run.concurrencyKey == Some(key) &&
                        t.runs[i].record.state !in {Completed, Failed, Cancelled}
  {
    if i :| i in t.runs && t.runs[i].record.run.queue == queue && t.runs[i].record.run.concurrencyKey == Some(key) &&
            t.runs[i].record.state !in {Completed, Failed, Cancelled} {
      assert IsHolder(t.runs[i], queue, key);
    }
  }

  /** The run asked for is created exactly when it is well formed, no run of its queue has its idempotency key and,
      if it asks to be rejected on conflict, no unfinished run of its queue has its concurrency key. Otherwise
      nothing changes. */
  lemma {:induction false} CreatesMeaning(t: Table, r: NewRun, id: Id, now: Instant)
    requires Valid(t)
    ensures Creates(t, r) <==>
            && r.queue != "" && r.appName != "" && r.userId != "" && r.target != "" && r.maxAttempts > 0
            && r.idempotencyKey != Some("") && r.concurrencyKey != Some("")
            && (r.idempotencyKey.Some? ==>
                  forall i :: i in t.runs && t.runs[i].record.run.queue == r.queue ==>
                    t.runs[i].record.run.idempotencyKey != r.idempotencyKey)
            && (r.onConflict == Reject && r.concurrencyKey.Some? ==>
                  forall i :: i in t.runs && t.runs[i].record.run.queue == r.queue &&
                              t.runs[i].record.run.concurrencyKey == r.concurrencyKey ==>
                    t.runs[i].record.state in {Completed, Failed, Cancelled})
    ensures !Creates(t, r) ==> Enqueued(t, id, r, now) == t
  {
    DuplicateMeaning(t, r);
    if r.concurrencyKey.Some? {
      HolderMeaning(t, r.queue, r.concurrencyKey.value);
    }
  }

  /** Pruning removes exactly the finished runs last written before the instant, and changes no other. */
  lemma {:induction false} PruneWrites(t: Table, before: Instant, now: Instant, last: Instant, id: Id)
    requires Valid(t)
    ensures var u := Next(t, Prune(before), now, last);
            && (id in u.runs <==>
                id in t.runs && !(IsTerminal(t.runs[id].record.state) && t.runs[id].record.updatedAt < before))
            && (id in u.runs ==> u.runs[id] == t.runs[id])
  {
  }
}
