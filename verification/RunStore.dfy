/** The in-memory run store (adk-core/src/run_store.rs): its operations, each taking one reading of the
    clock, proved against `RunQueue.Next`. */
module RunStore {
  import opened RunQueue
  import opened RunFencing
  import opened Wrappers

  lemma KeysOfMore(runs: map<Id, Entry>, ids: set<Id>, id: Id, byKey: map<QueueKey, Id>)
    requires ids <= runs.Keys && id in runs
    ensures byKey - KeysOf(runs, ids) - KeyOf(runs[id].record.run) == byKey - KeysOf(runs, ids + {id})
  {
    assert KeysOf(runs, ids + {id}) == KeysOf(runs, ids) + KeyOf(runs[id].record.run);
  }

  lemma SnocInOrder(t: Table, ids: set<Id>, cs: seq<Id>, i: Id)
    requires InOrder(t, ids, cs) && i in t.runs && i !in ids
    requires forall c :: c in cs ==> OrderLess(t.runs[c], t.runs[i])
    ensures InOrder(t, ids + {i}, cs + [i])
  {
    var ds := cs + [i];
    forall a, b | 0 <= a < b < |ds| ensures ds[a] != ds[b] && OrderLess(t.runs[ds[a]], t.runs[ds[b]]) {
      if b == |cs| {
        assert cs[a] in cs;
      }
    }
  }

  class InMemoryRunStore {
    var runs: map<Id, Entry>
    var byKey: map<QueueKey, Id>
    var nextSeq: nat
    const last: Instant

    /** `last` is the last instant a timestamp can hold. */
    constructor (last: Instant)
      ensures View() == EMPTY && this.last == last
      ensures Valid(View())
    {
      runs, byKey, nextSeq := map[], map[], 0;
      this.last := last;
    }

    function View(): Table
      reads this
    {
      Table(runs, byKey, nextSeq)
    }

    // ---- Enqueue ----

    /** The oldest unfinished run of a key. */
    method OldestHolder(queue: string, key: string) returns (o: Option<Id>)
      requires Valid(View())
      ensures o.None? <==> !HasHolder(View(), queue, key)
      ensures o.Some? ==> IsOldestHolder(View(), queue, key, o.value)
    {
      o := None;
      var todo := runs.Keys;
      while todo != {}
        invariant todo <= runs.Keys
        invariant o.None? ==> forall j :: j in runs && j !in todo ==> !IsHolder(runs[j], queue, key)
        invariant o.Some? ==> o.value in runs && IsHolder(runs[o.value], queue, key)
        invariant o.Some? ==> forall j :: j in runs && j !in todo && IsHolder(runs[j], queue, key) ==> !OrderLess(runs[j], runs[o.value])
      {
        var i :| i in todo;
        if IsHolder(runs[i], queue, key) && (o.None? || OrderLess(runs[i], runs[o.value])) {
          o := Some(i);
        }
        todo := todo - {i};
      }
    }

    /** Cancels the key's queued and waiting runs and asks its running ones to stop. */
    method InterruptAll(queue: string, key: string, now: Instant)
      modifies this`runs
      ensures View() == InterruptHolders(old(View()), queue, key, now)
    {
      ghost var was := runs;
      var todo := set i | i in runs && IsHolder(runs[i], queue, key);
      while todo != {}
        invariant runs.Keys == was.Keys && todo <= was.Keys
        invariant forall i :: i in todo ==> runs[i] == was[i] && IsHolder(was[i], queue, key)
        invariant forall i :: i in runs && i !in todo ==>
                    runs[i] == if IsHolder(was[i], queue, key) then was[i].(record := InterruptRecord(was[i].record, now)) else was[i]
      {
        var i :| i in todo;
        var record := runs[i].record;
        if record.state == Running {
          record := record.(cancelRequested := true);
        } else {
          record := ReleaseLease(record.(state := Cancelled));
        }
        runs := runs[i := runs[i].(record := Touch(record, now))];
        todo := todo - {i};
      }
      assert runs == InterruptHolders(old(View()), queue, key, now).runs;
    }

    /** `id` is the identifier generated for the run if it is created. */
    method EnqueueRun(id: Id, run: NewRun, now: Instant) returns (r: Reply)
      requires Valid(View()) && id !in runs
      modifies this
      ensures View() == Next(old(View()), Enqueue(id, run), now, last)
      ensures Valid(View())
      ensures r.InvalidRun? <==> run.queue == "" || run.appName == "" || run.userId == "" || run.target == "" ||
                                 run.idempotencyKey == Some("") || run.concurrencyKey == Some("") || run.maxAttempts == 0
      ensures r.Existing? <==> ValidRun(run) && Duplicate(old(View()), run).Some?
      ensures r.Existing? ==> r.record == old(runs)[Duplicate(old(View()), run).value].record
      ensures r.Rejected? <==> ValidRun(run) && Duplicate(old(View()), run).None? && Conflicts(old(View()), run)
      ensures r.Rejected? ==> IsOldestHolder(old(View()), run.queue, run.concurrencyKey.value, r.blocking)
      ensures Creates(old(View()), run) ==> r == Created(QueuedRecord(id, run, now))
    {
      EnqueueKeepsValid(View(), id, run, now);
      if !ValidRun(run) {
        return InvalidRun;
      }
      if run.idempotencyKey.Some? {
        var key := QueueKey(run.queue, run.idempotencyKey.value);
        if key in byKey && byKey[key] in runs {
          return Existing(runs[byKey[key]].record);
        }
      }
      if run.concurrencyKey.Some? {
        match run.onConflict {
          case Reject =>
            var blocking := OldestHolder(run.queue, run.concurrencyKey.value);
            if blocking.Some? {
              return Rejected(blocking.value);
            }
          case Interrupt =>
            InterruptAll(run.queue, run.concurrencyKey.value, now);
          case EnqueueBehind =>
        }
      }
      var record := InsertRun(id, run, now);
      r := Created(record);
    }

    method InsertRun(id: Id, run: NewRun, now: Instant) returns (record: Record)
      modifies this
      ensures View() == Insert(old(View()), id, run, now)
      ensures record == QueuedRecord(id, run, now)
    {
      if run.idempotencyKey.Some? {
        byKey := byKey[QueueKey(run.queue, run.idempotencyKey.value) := id];
      }
      record := QueuedRecord(id, run, now);
      runs := runs[id := Entry(record, nextSeq)];
      nextSeq := nextSeq + 1;
    }

    // ---- Claim ----

    method OldestOf(ids: set<Id>) returns (i: Id)
      requires Valid(View()) && ids != {} && ids <= runs.Keys
      ensures i in ids && forall j :: j in ids && j != i ==> OrderLess(runs[i], runs[j])
    {
      ghost var m := OldestExists(View(), ids);
      i :| i in ids && forall j :: j in ids && j != i ==> OrderLess(runs[i], runs[j]);
    }

    /** The candidates sorted oldest first. */
    method SortedCandidates(queue: string) returns (cs: seq<Id>)
      requires Valid(View())
      ensures cs == Candidates(View(), queue)
    {
      cs := [];
      var todo := CandidateSet(View(), queue);
      ghost var done: set<Id> := {};
      while todo != {}
        invariant todo <= runs.Keys && done + todo == CandidateSet(View(), queue)
        invariant done !! todo && InOrder(View(), done, cs)
        invariant forall c, i :: c in done && i in todo ==> OrderLess(runs[c], runs[i])
      {
        var i := OldestOf(todo);
        SnocInOrder(View(), done, cs, i);
        done := done + {i};
        cs := cs + [i];
        todo := todo - {i};
      }
      InOrderIsUnique(View(), CandidateSet(View(), queue), cs, Candidates(View(), queue));
    }

    /** Claims the first candidate that can be claimed, failing exhausted ones on the way. */
    method ClaimRun(queue: string, worker: string, ttl: nat, now: Instant) returns (r: Reply)
      requires Valid(View())
      modifies this`runs
      ensures View() == Next(old(View()), Claim(queue, worker, ttl), now, last)
      ensures Valid(View())
      ensures r.InvalidTtl? <==> !GoodTtl(now, ttl, last)
      ensures GoodTtl(now, ttl, last) ==>
                match ClaimResult(old(View()), queue, worker, now, ttl).1
                case None => r == NothingToClaim
                case Some(c) => c in runs && r == Claimed(runs[c].record, runs[c].record.leaseEpoch)
    {
      if ttl == 0 || now + ttl > last {
        return InvalidTtl;
      }
      ClaimKeepsValid(View(), queue, worker, now, ttl);
      var candidates := SortedCandidates(queue);
      for k := 0 to |candidates|
        invariant byKey == old(byKey) && nextSeq == old(nextSeq)
        invariant forall c :: c in candidates ==> c in runs
        invariant ClaimOver(View(), candidates[k..], worker, now, ttl) == ClaimResult(old(View()), queue, worker, now, ttl)
      {
        var id := candidates[k];
        assert candidates[k..][0] == id && candidates[k..][1..] == candidates[k + 1..];
        var entry := runs[id];
        if PassedOver(View(), entry, now) {
          continue;
        }
        if entry.record.state == Running && entry.record.attempt >= entry.record.run.maxAttempts {
          runs := runs[id := entry.(record := ExhaustedRecord(entry.record, now))];
          continue;
        }
        var record := ClaimedRecord(entry.record, worker, now, ttl);
        runs := runs[id := entry.(record := record)];
        return Claimed(record, record.leaseEpoch);
      }
      r := NothingToClaim;
    }

    // ---- Writes of the worker that holds the run ----

    method HeartbeatRun(id: Id, epoch: nat, ttl: nat, now: Instant) returns (r: Reply)
      requires Valid(View())
      modifies this`runs
      ensures View() == Next(old(View()), Heartbeat(id, epoch, ttl), now, last) && Valid(View())
      ensures r == if !GoodTtl(now, ttl, last) then InvalidTtl
                   else if Fenced(old(View()), id, epoch) then CancelFlag(old(runs)[id].record.cancelRequested)
                   else Refusal(old(View()), id, epoch)
    {
      NextKeepsValid(View(), Heartbeat(id, epoch, ttl), now, last);
      if !GoodTtl(now, ttl, last) {
        return InvalidTtl;
      }
      if !Fenced(View(), id, epoch) {
        return Refusal(View(), id, epoch);
      }
      var record := runs[id].record.(leaseExpiresAt := Some(now + ttl), heartbeatAt := Some(now));
      runs := runs[id := runs[id].(record := Touch(record, now))];
      r := CancelFlag(record.cancelRequested);
    }

    method SetRunCheckpoint(id: Id, epoch: nat, checkpoint: Value, now: Instant) returns (r: Reply)
      requires Valid(View())
      modifies this`runs
      ensures View() == Next(old(View()), SetCheckpoint(id, epoch, checkpoint), now, last) && Valid(View())
      ensures r == if Fenced(old(View()), id, epoch) then Done else Refusal(old(View()), id, epoch)
    {
      NextKeepsValid(View(), SetCheckpoint(id, epoch, checkpoint), now, last);
      if !Fenced(View(), id, epoch) {
        return Refusal(View(), id, epoch);
      }
      var record := runs[id].record.(checkpoint := Some(checkpoint));
      runs := runs[id := runs[id].(record := Touch(record, now))];
      r := Done;
    }

    method WaitRun(id: Id, epoch: nat, until: Option<Instant>, now: Instant) returns (r: Reply)
      requires Valid(View())
      modifies this`runs
      ensures View() == Next(old(View()), Wait(id, epoch, until), now, last) && Valid(View())
      ensures r == if Fenced(old(View()), id, epoch) then Done else Refusal(old(View()), id, epoch)
    {
      NextKeepsValid(View(), Wait(id, epoch, until), now, last);
      if !Fenced(View(), id, epoch) {
        return Refusal(View(), id, epoch);
      }
      var record := runs[id].record;
      record := record.(state := Waiting, notBefore := if record.wakePending then Some(now) else until, wakePending := false);
      runs := runs[id := runs[id].(record := Touch(ReleaseLease(record), now))];
      r := Done;
    }

    method FinishRun(id: Id, epoch: nat, outcome: RunOutcome, now: Instant) returns (r: Reply)
      requires Valid(View())
      modifies this`runs
      ensures View() == Next(old(View()), Finish(id, epoch, outcome), now, last) && Valid(View())
      ensures Fenced(old(View()), id, epoch) ==> id in runs && r == Finished(runs[id].record)
      ensures !Fenced(old(View()), id, epoch) ==> r == Refusal(old(View()), id, epoch)
    {
      NextKeepsValid(View(), Finish(id, epoch, outcome), now, last);
      if !Fenced(View(), id, epoch) {
        return Refusal(View(), id, epoch);
      }
      var record := runs[id].record;
      match outcome {
        case Succeeded(value) =>
          record := record.(state := Completed, result := Some(value));
        case Errored(message, retryable) =>
          var retry := retryable && record.attempt < record.run.maxAttempts && !record.cancelRequested;
          record := record.(state := if retry then Queued else Failed, error := Some(message));
        case Stopped =>
          record := record.(state := Cancelled);
      }
      record := Touch(ReleaseLease(record.(wakePending := false)), now);
      runs := runs[id := runs[id].(record := record)];
      r := Finished(record);
    }

    // ---- Requests from outside ----

    method WakeRun(id: Id, now: Instant) returns (r: Reply)
      requires Valid(View())
      modifies this`runs
      ensures View() == Next(old(View()), Wake(id), now, last) && Valid(View())
      ensures r == if id in old(runs) then Done else NotFound(id)
    {
      NextKeepsValid(View(), Wake(id), now, last);
      if id !in runs {
        return NotFound(id);
      }
      var record := runs[id].record;
      match record.state {
        case Waiting => record := Touch(record.(notBefore := Some(now)), now);
        case Running => record := Touch(record.(wakePending := true), now);
        case _ =>
      }
      runs := runs[id := runs[id].(record := record)];
      r := Done;
    }

    method RequestCancelRun(id: Id, now: Instant) returns (r: Reply)
      requires Valid(View())
      modifies this`runs
      ensures View() == Next(old(View()), RequestCancel(id), now, last) && Valid(View())
      ensures r == if id in old(runs) then Done else NotFound(id)
    {
      NextKeepsValid(View(), RequestCancel(id), now, last);
      if id !in runs {
        return NotFound(id);
      }
      var record := runs[id].record;
      match record.state {
        case Queued => record := Touch(ReleaseLease(record.(state := Cancelled)), now);
        case Waiting => record := Touch(ReleaseLease(record.(state := Cancelled)), now);
        case Running => record := Touch(record.(cancelRequested := true), now);
        case _ =>
      }
      runs := runs[id := runs[id].(record := record)];
      r := Done;
    }

    method RemoveRuns(gone: set<Id>)
      requires gone <= runs.Keys
      modifies this`runs, this`byKey
      ensures View() == Without(old(View()), gone)
    {
      var todo := gone;
      ghost var done: set<Id> := {};
      while todo != {}
        invariant done + todo == gone && done !! todo
        invariant View() == Without(old(View()), done)
      {
        var id :| id in todo;
        assert id in runs && runs[id] == old(runs)[id];
        KeysOfMore(old(runs), done, id, old(byKey));
        byKey := byKey - KeyOf(runs[id].record.run);
        runs := runs - {id};
        assert old(runs) - done - {id} == old(runs) - (done + {id});
        done := done + {id};
        todo := todo - {id};
      }
    }

    /** Removes the finished runs last written before an instant, with their idempotency keys. */
    method PruneRuns(before: Instant, now: Instant) returns (r: Reply)
      requires Valid(View())
      modifies this`runs, this`byKey
      ensures View() == Next(old(View()), Prune(before), now, last) && Valid(View())
      ensures r == Pruned(|PrunableRuns(old(View()), before)|)
    {
      PruneKeepsValid(View(), before);
      var gone := PrunableRuns(View(), before);
      RemoveRuns(gone);
      r := Pruned(|gone|);
    }
  }
}
