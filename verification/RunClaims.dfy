/** Which run a claim takes, that runs sharing a concurrency key run one at a time, and that a wake is
    not lost (adk-core/src/run_store.rs). */
module RunClaims {
  import opened RunQueue
  import opened RunFencing
  import opened Wrappers

  // ---- The claim takes the oldest claimable run ----

  /** An unfinished run of the same queue and concurrency key. */
  predicate Rivals(e: Entry, f: Entry) {
    && e.record.run.queue == f.record.run.queue
    && e.record.run.concurrencyKey.Some? && e.record.run.concurrencyKey == f.record.run.concurrencyKey
    && !IsTerminal(e.record.state) && !IsTerminal(f.record.state)
  }

  /** The run can be claimed now, once every older run whose last attempt expired has been failed. */
  predicate Claimable(t: Table, i: Id, now: Instant)
    requires i in t.runs
  {
    var e := t.runs[i];
    match e.record.state
    case Queued =>
      (e.record.notBefore.None? || e.record.notBefore.value <= now) &&
      forall j :: j in t.runs && Rivals(t.runs[j], e) && OrderLess(t.runs[j], e) ==> Expires(t.runs[j], now)
    case Waiting => e.record.notBefore.Some? && e.record.notBefore.value <= now
    case Running => (e.record.leaseExpiresAt.None? || e.record.leaseExpiresAt.value <= now) && !Exhausted(e)
    case _ => false
  }

  /** The table with the runs of `gone` failed for want of attempts. */
  function FailedAll(t: Table, gone: set<Id>, now: Instant): Table {
    t.(runs := map i | i in t.runs ::
                 if i in gone then t.runs[i].(record := ExhaustedRecord(t.runs[i].record, now)) else t.runs[i])
  }

  function ExpiredIn(t: Table, cs: seq<Id>, now: Instant): set<Id> {
    set i | i in cs && i in t.runs && Expires(t.runs[i], now)
  }

  lemma FailOneMore(t: Table, gone: set<Id>, c: Id, now: Instant)
    requires c in t.runs && c !in gone
    ensures Put(FailedAll(t, gone, now), c, ExhaustedRecord(t.runs[c].record, now)) == FailedAll(t, gone + {c}, now)
  {
    var a := Put(FailedAll(t, gone, now), c, ExhaustedRecord(t.runs[c].record, now));
    assert a.runs == FailedAll(t, gone + {c}, now).runs;
  }

  lemma BlockedAfterFailing(t: Table, queue: string, cs: seq<Id>, k: nat, now: Instant)
    requires InOrder(t, CandidateSet(t, queue), cs) && k < |cs|
    ensures var e := t.runs[cs[k]];
            Blocked(FailedAll(t, ExpiredIn(t, cs[..k], now), now), e) <==>
            exists j :: j in t.runs && Rivals(t.runs[j], e) && OrderLess(t.runs[j], e) && !Expires(t.runs[j], now)
  {
    var gone := ExpiredIn(t, cs[..k], now);
    var m := FailedAll(t, gone, now);
    assert cs[k] in cs;
    var e := t.runs[cs[k]];
    forall j | j in t.runs && Rivals(t.runs[j], e) && OrderLess(t.runs[j], e)
      ensures j in gone <==> Expires(t.runs[j], now)
    {
      assert j in CandidateSet(t, queue) && j in cs;
      var x :| 0 <= x < |cs| && cs[x] == j;
      assert x < k;
      assert cs[..k][x] == j;
    }
    if Blocked(m, e) {
      var key := e.record.run.concurrencyKey.value;
      var j :| j in m.runs && IsHolder(m.runs[j], e.record.run.queue, key) && OrderLess(m.runs[j], e);
      assert j !in gone;
      assert Rivals(t.runs[j], e);
    }
    if j :| j in t.runs && Rivals(t.runs[j], e) && OrderLess(t.runs[j], e) && !Expires(t.runs[j], now) {
      assert m.runs[j] == t.runs[j];
      assert IsHolder(m.runs[j], e.record.run.queue, e.record.run.concurrencyKey.value);
    }
  }

  lemma TakesIsClaimable(t: Table, queue: string, cs: seq<Id>, k: nat, now: Instant)
    requires InOrder(t, CandidateSet(t, queue), cs) && k < |cs|
    ensures var m := FailedAll(t, ExpiredIn(t, cs[..k], now), now);
            var e := t.runs[cs[k]];
            && (Takes(m, e, now) <==> Claimable(t, cs[k], now))
            && (!PassedOver(m, e, now) && Exhausted(e) <==> Expires(e, now))
  {
    assert cs[k] in cs;
    BlockedAfterFailing(t, queue, cs, k, now);
  }

  predicate OldestClaimable(t: Table, cs: seq<Id>, k: nat, now: Instant)
    requires forall c :: c in cs ==> c in t.runs
  {
    k < |cs| && Claimable(t, cs[k], now) && forall i :: 0 <= i < k ==> !Claimable(t, cs[i], now)
  }

  /** The result is the table with the first claimable candidate claimed and every older expired run
      failed, or with every expired run failed when there is none. */
  ghost predicate ClaimedOldest(
      t: Table, cs: seq<Id>, result: (Table, Option<Id>), worker: string, now: Instant, ttl: nat)
    requires forall c :: c in cs ==> c in t.runs
  {
    match result.1
    case None =>
      (forall i :: 0 <= i < |cs| ==> !Claimable(t, cs[i], now)) &&
      result.0 == FailedAll(t, ExpiredIn(t, cs, now), now)
    case Some(c) =>
      exists k: nat :: OldestClaimable(t, cs, k, now) && cs[k] == c &&
        result.0 == Put(FailedAll(t, ExpiredIn(t, cs[..k], now), now), c, ClaimedRecord(t.runs[c].record, worker, now, ttl))
  }

  lemma ClaimFrom(t: Table, queue: string, cs: seq<Id>, k: nat, worker: string, now: Instant, ttl: nat)
    requires InOrder(t, CandidateSet(t, queue), cs) && k <= |cs|
    requires forall i :: 0 <= i < k ==> !Claimable(t, cs[i], now)
    ensures var m := FailedAll(t, ExpiredIn(t, cs[..k], now), now);
            (forall c :: c in cs[k..] ==> c in m.runs) &&
            ClaimedOldest(t, cs, ClaimOver(m, cs[k..], worker, now, ttl), worker, now, ttl)
    decreases |cs| - k
  {
    var gone := ExpiredIn(t, cs[..k], now);
    var m := FailedAll(t, gone, now);
    forall c | c in cs[k..] ensures c in m.runs {
      assert c in cs;
    }
    if k == |cs| {
      assert cs[..k] == cs && cs[k..] == [];
    } else {
      var c := cs[k];
      assert cs[k..][0] == c && cs[k..][1..] == cs[k + 1..];
      assert c in cs && c !in cs[..k];
      assert m.runs[c] == t.runs[c];
      TakesIsClaimable(t, queue, cs, k, now);
      assert cs[..k + 1] == cs[..k] + [c];
      if Takes(m, m.runs[c], now) {
        assert OldestClaimable(t, cs, k, now);
      } else {
        if Expires(t.runs[c], now) {
          assert ExpiredIn(t, cs[..k + 1], now) == gone + {c};
          FailOneMore(t, gone, c, now);
        } else {
          assert ExpiredIn(t, cs[..k + 1], now) == gone;
        }
        ClaimFrom(t, queue, cs, k + 1, worker, now, ttl);
      }
    }
  }

  /** A claim takes the oldest run of its queue that can be claimed, and fails exactly the older runs
      whose last attempt's lease expired; without one it fails all of those and takes none. */
  lemma {:induction false} ClaimTakesOldest(t: Table, queue: string, worker: string, now: Instant, ttl: nat)
    requires DistinctOrders(t)
    ensures ClaimedOldest(t, Candidates(t, queue), ClaimResult(t, queue, worker, now, ttl), worker, now, ttl)
  {
    var cs := Candidates(t, queue);
    ClaimFrom(t, queue, cs, 0, worker, now, ttl);
    assert cs[..0] == [] && cs[0..] == cs;
    assert FailedAll(t, {}, now).runs == t.runs;
    assert ExpiredIn(t, [], now) == {};
  }

  // ---- One started run per concurrency key ----

  predicate IsStarted(s: RunState) {
    s == Running || s == Waiting
  }

  /** Only the oldest unfinished run of a concurrency key has started. */
  predicate OnlyOldestStarted(t: Table) {
    forall i, j :: i in t.runs && j in t.runs && Rivals(t.runs[i], t.runs[j]) && OrderLess(t.runs[i], t.runs[j]) ==>
      t.runs[j].record.state == Queued
  }

  /** Two started runs never share a queue and a concurrency key. */
  lemma {:induction false} OneStartedAtATime(t: Table, i: Id, j: Id)
    requires DistinctOrders(t) && OnlyOldestStarted(t)
    requires i in t.runs && j in t.runs && Rivals(t.runs[i], t.runs[j])
    requires IsStarted(t.runs[i].record.state) && IsStarted(t.runs[j].record.state)
    ensures i == j
  {
    assert i != j ==> OrderLess(t.runs[i], t.runs[j]) || OrderLess(t.runs[j], t.runs[i]);
    assert Rivals(t.runs[j], t.runs[i]);
  }

  /** The change neither revives a finished run nor starts a queued one. */
  predicate StartsNothing(r: Record, s: Record) {
    !IsTerminal(s.state) ==> !IsTerminal(r.state) && (r.state == Queued ==> s.state == Queued)
  }

  lemma StartsNothingKeeps(t: Table, u: Table)
    requires InPlace(t, u) && OnlyOldestStarted(t)
    requires forall i :: i in t.runs ==> StartsNothing(t.runs[i].record, u.runs[i].record)
    ensures OnlyOldestStarted(u)
  {
    forall i, j | i in u.runs && j in u.runs && Rivals(u.runs[i], u.runs[j]) && OrderLess(u.runs[i], u.runs[j])
      ensures u.runs[j].record.state == Queued
    {
      assert Rivals(t.runs[i], t.runs[j]) && OrderLess(t.runs[i], t.runs[j]);
    }
  }

  lemma NewRecordStartsNothing(r: Record, op: Operation, now: Instant)
    requires OnOneRun(op) && (IsFencedWrite(op) ==> r.state == Running)
    ensures StartsNothing(r, NewRecord(r, op, now))
  {
  }

  lemma {:induction false} OneRunKeepsExclusive(t: Table, op: Operation, now: Instant, last: Instant)
    requires Valid(t) && OnlyOldestStarted(t) && OnOneRun(op)
    ensures OnlyOldestStarted(Next(t, op, now, last))
  {
    OneRunInPlace(t, op, now, last);
    OneRunNext(t, op, now, last);
    if Lands(t, op, now, last) {
      NewRecordStartsNothing(t.runs[op.id].record, op, now);
    }
    StartsNothingKeeps(t, Next(t, op, now, last));
  }

  /** With some runs failed, the rivals that are left were rivals before. */
  lemma FailedRivals(t: Table, gone: set<Id>, now: Instant, i: Id, j: Id)
    requires i in t.runs && j in t.runs
    requires var m := FailedAll(t, gone, now); Rivals(m.runs[i], m.runs[j])
    ensures i !in gone && j !in gone && Rivals(t.runs[i], t.runs[j])
    ensures FailedAll(t, gone, now).runs[i] == t.runs[i] && FailedAll(t, gone, now).runs[j] == t.runs[j]
  {
  }

  lemma FailedKeepsExclusive(t: Table, gone: set<Id>, now: Instant)
    requires OnlyOldestStarted(t)
    ensures OnlyOldestStarted(FailedAll(t, gone, now))
  {
    var m := FailedAll(t, gone, now);
    forall i, j | i in m.runs && j in m.runs && Rivals(m.runs[i], m.runs[j]) && OrderLess(m.runs[i], m.runs[j])
      ensures m.runs[j].record.state == Queued
    {
      FailedRivals(t, gone, now, i, j);
    }
  }

  /** Every older rival of the run a claim takes is one the claim fails. */
  lemma OldestHasNoRival(t: Table, queue: string, cs: seq<Id>, k: nat, i: Id, now: Instant)
    requires OnlyOldestStarted(t) && InOrder(t, CandidateSet(t, queue), cs) && OldestClaimable(t, cs, k, now)
    requires i in t.runs && Rivals(t.runs[i], t.runs[cs[k]]) && OrderLess(t.runs[i], t.runs[cs[k]])
    ensures i in ExpiredIn(t, cs[..k], now)
  {
    assert cs[k] in cs;
    assert t.runs[cs[k]].record.state == Queued;
    assert i in CandidateSet(t, queue) && i in cs;
    var x :| 0 <= x < |cs| && cs[x] == i;
    assert cs[..k][x] == i;
  }

  lemma TakenKeepsExclusive(
      t: Table, queue: string, cs: seq<Id>, k: nat, worker: string, now: Instant, ttl: nat)
    requires OnlyOldestStarted(t) && InOrder(t, CandidateSet(t, queue), cs) && OldestClaimable(t, cs, k, now)
    ensures OnlyOldestStarted(
              Put(FailedAll(t, ExpiredIn(t, cs[..k], now), now), cs[k], ClaimedRecord(t.runs[cs[k]].record, worker, now, ttl)))
  {
    var c, gone := cs[k], ExpiredIn(t, cs[..k], now);
    var m := FailedAll(t, gone, now);
    var u := Put(m, c, ClaimedRecord(t.runs[c].record, worker, now, ttl));
    FailedKeepsExclusive(t, gone, now);
    assert c in cs && c !in cs[..k];
    assert m.runs[c] == t.runs[c];
    forall i, j | i in u.runs && j in u.runs && Rivals(u.runs[i], u.runs[j]) && OrderLess(u.runs[i], u.runs[j])
      ensures u.runs[j].record.state == Queued
    {
      assert Rivals(m.runs[i], m.runs[j]) && OrderLess(m.runs[i], m.runs[j]);
      FailedRivals(t, gone, now, i, j);
      if j == c {
        OldestHasNoRival(t, queue, cs, k, i, now);
      }
    }
  }

  lemma ClaimKeepsExclusive(t: Table, queue: string, worker: string, now: Instant, ttl: nat)
    requires Valid(t) && OnlyOldestStarted(t)
    ensures OnlyOldestStarted(ClaimResult(t, queue, worker, now, ttl).0)
  {
    var cs := Candidates(t, queue);
    ClaimTakesOldest(t, queue, worker, now, ttl);
    match ClaimResult(t, queue, worker, now, ttl).1
    case None =>
      FailedKeepsExclusive(t, ExpiredIn(t, cs, now), now);
    case Some(c) =>
      var k: nat :| OldestClaimable(t, cs, k, now) && cs[k] == c &&
                    ClaimResult(t, queue, worker, now, ttl).0 ==
                    Put(FailedAll(t, ExpiredIn(t, cs[..k], now), now), c, ClaimedRecord(t.runs[c].record, worker, now, ttl));
      TakenKeepsExclusive(t, queue, cs, k, worker, now, ttl);
  }

  /** No started run of the new run's key was created after the new run's own timestamp. */
  predicate StampedInOrder(t: Table, r: NewRun, now: Instant) {
    r.concurrencyKey.Some? ==>
      forall j :: j in t.runs && IsHolder(t.runs[j], r.queue, r.concurrencyKey.value) &&
                  IsStarted(Cleared(t, r, now).runs[j].record.state) ==>
        t.runs[j].record.createdAt <= now
  }

  lemma ClearedKeepsExclusive(t: Table, r: NewRun, now: Instant)
    requires Valid(t) && OnlyOldestStarted(t)
    ensures OnlyOldestStarted(Cleared(t, r, now))
  {
    ClearedInPlace(t, r, now);
    StartsNothingKeeps(t, Cleared(t, r, now));
  }

  /** Every started run of the key in `m` has a timestamp no later than `now`. */
  predicate NoneStartedLater(m: Table, r: NewRun, now: Instant) {
    r.concurrencyKey.Some? ==>
      forall j :: j in m.runs && IsHolder(m.runs[j], r.queue, r.concurrencyKey.value) && IsStarted(m.runs[j].record.state) ==>
        m.runs[j].record.createdAt <= now
  }

  lemma InsertNeedsOrder(m: Table, id: Id, r: NewRun, now: Instant)
    requires id !in m.runs && OnlyOldestStarted(Insert(m, id, r, now))
    ensures NoneStartedLater(m, r, now)
  {
    var u := Insert(m, id, r, now);
    if r.concurrencyKey.Some? {
      forall j | j in m.runs && IsHolder(m.runs[j], r.queue, r.concurrencyKey.value) && IsStarted(m.runs[j].record.state)
        ensures m.runs[j].record.createdAt <= now
      {
        assert u.runs[j] == m.runs[j];
        assert Rivals(u.runs[id], u.runs[j]);
      }
    }
  }

  lemma InsertKeepsExclusive(m: Table, id: Id, r: NewRun, now: Instant)
    requires GoodSeqs(m) && OnlyOldestStarted(m) && id !in m.runs && NoneStartedLater(m, r, now)
    ensures OnlyOldestStarted(Insert(m, id, r, now))
  {
    var u := Insert(m, id, r, now);
    forall i, j | i in u.runs && j in u.runs && Rivals(u.runs[i], u.runs[j]) && OrderLess(u.runs[i], u.runs[j])
      ensures u.runs[j].record.state == Queued
    {
      if j != id {
        assert u.runs[j] == m.runs[j];
        if i == id {
          assert IsHolder(m.runs[j], r.queue, r.concurrencyKey.value);
          assert m.runs[j].seqNo < m.nextSeq;
        } else {
          assert u.runs[i] == m.runs[i];
        }
      }
    }
  }

  lemma StampedIsNoneLater(t: Table, r: NewRun, now: Instant)
    requires Valid(t)
    ensures StampedInOrder(t, r, now) <==> NoneStartedLater(Cleared(t, r, now), r, now)
  {
    ClearedInPlace(t, r, now);
    var m := Cleared(t, r, now);
    forall j | j in t.runs && IsStarted(m.runs[j].record.state) && r.concurrencyKey.Some?
      ensures IsHolder(t.runs[j], r.queue, r.concurrencyKey.value) <==> IsHolder(m.runs[j], r.queue, r.concurrencyKey.value)
    {
    }
  }

  /** Enqueueing a run keeps its concurrency key exclusive exactly when the run's timestamp is not older
      than that of a started run of the key. */
  lemma {:induction false} EnqueueKeepsExclusiveExactly(t: Table, id: Id, r: NewRun, now: Instant)
    requires Valid(t) && OnlyOldestStarted(t) && id !in t.runs && Creates(t, r)
    ensures OnlyOldestStarted(Enqueued(t, id, r, now)) <==> StampedInOrder(t, r, now)
  {
    var m := Cleared(t, r, now);
    ClearedInPlace(t, r, now);
    ClearedKeepsExclusive(t, r, now);
    StampedIsNoneLater(t, r, now);
    assert Enqueued(t, id, r, now) == Insert(m, id, r, now);
    if StampedInOrder(t, r, now) {
      InsertKeepsExclusive(m, id, r, now);
    } else if OnlyOldestStarted(Insert(m, id, r, now)) {
      InsertNeedsOrder(m, id, r, now);
    }
  }

  lemma PruneKeepsExclusive(t: Table, before: Instant)
    requires OnlyOldestStarted(t)
    ensures OnlyOldestStarted(PrunedTable(t, before))
  {
    var u := PrunedTable(t, before);
    assert forall i :: i in u.runs ==> i in t.runs && u.runs[i] == t.runs[i];
  }

  predicate InOrderStep(t: Table, e: Event) {
    e.op.Enqueue? && Creates(t, e.op.run) ==> StampedInOrder(t, e.op.run, e.now)
  }

  lemma {:induction false} NextKeepsExclusive(t: Table, e: Event, last: Instant)
    requires Valid(t) && OnlyOldestStarted(t) && EnqueuesFresh(t, e.op) && InOrderStep(t, e)
    ensures OnlyOldestStarted(Next(t, e.op, e.now, last))
  {
    match e.op
    case Enqueue(id, r) =>
      if Creates(t, r) {
        EnqueueKeepsExclusiveExactly(t, id, r, e.now);
      }
    case Claim(queue, worker, ttl) =>
      if GoodTtl(e.now, ttl, last) {
        ClaimKeepsExclusive(t, queue, worker, e.now, ttl);
      }
    case Prune(before) => PruneKeepsExclusive(t, before);
    case _ => OneRunKeepsExclusive(t, e.op, e.now, last);
  }

  ghost predicate StampsInOrder(t: Table, es: seq<Event>, last: Instant)
    requires Valid(t) && FreshIds(t, es)
    decreases |es|
  {
    es == [] ||
    (InOrderStep(t, es[0]) &&
     (NextKeepsValid(t, es[0].op, es[0].now, last);
      FreshTail(t, es, last);
      StampsInOrder(Next(t, es[0].op, es[0].now, last), es[1..], last)))
  }

  /** Runs that share a concurrency key run one at a time, in every run of the store whose enqueues are
      stamped in order. */
  lemma {:induction false} KeysRunOneAtATime(t: Table, es: seq<Event>, last: Instant)
    requires Valid(t) && FreshIds(t, es) && OnlyOldestStarted(t) && StampsInOrder(t, es, last)
    ensures OnlyOldestStarted(Run(t, es, last))
    decreases |es|
  {
    if es != [] {
      NextKeepsValid(t, es[0].op, es[0].now, last);
      FreshTail(t, es, last);
      NextKeepsExclusive(t, es[0], last);
      KeysRunOneAtATime(Next(t, es[0].op, es[0].now, last), es[1..], last);
    }
  }

  // ---- Wakes ----

  /** A wake for this run is not lost: it is pending, or the run is no longer parked, or it can be
      claimed now. */
  predicate Woken(t: Table, id: Id, now: Instant) {
    id in t.runs ==>
      var r := t.runs[id].record;
      match r.state
      case Running => r.wakePending
      case Waiting => Claimable(t, id, now)
      case _ => true
  }

  /** The run moves to a new attempt or is taken up again: the wake has had its effect. */
  predicate TakenUp(t: Table, u: Table, id: Id) {
    id in t.runs && id in u.runs && u.runs[id].record.leaseEpoch > t.runs[id].record.leaseEpoch
  }

  lemma {:induction false} WakeIsWoken(t: Table, id: Id, now: Instant, last: Instant)
    requires Valid(t)
    ensures Woken(Next(t, Wake(id), now, last), id, now)
  {
    OneRunNext(t, Wake(id), now, last);
  }

  /** Woken, by the run's own record. */
  predicate WokenRecord(r: Record, now: Instant) {
    match r.state
    case Running => r.wakePending
    case Waiting => r.notBefore.Some? && r.notBefore.value <= now
    case _ => true
  }

  lemma WokenIs(t: Table, id: Id, now: Instant)
    ensures Woken(t, id, now) <==> (id in t.runs ==> WokenRecord(t.runs[id].record, now))
  {
  }

  lemma NewRecordStaysWoken(r: Record, op: Operation, was: Instant, now: Instant)
    requires OnOneRun(op) && (IsFencedWrite(op) ==> r.state == Running) && was <= now && WokenRecord(r, was)
    ensures WokenRecord(NewRecord(r, op, now), now)
  {
  }

  lemma PruneStaysWoken(t: Table, before: Instant, was: Instant, now: Instant, id: Id)
    requires id in t.runs && was <= now && WokenRecord(t.runs[id].record, was)
    ensures id in PrunedTable(t, before).runs ==> WokenRecord(PrunedTable(t, before).runs[id].record, now)
  {
    assert id in PrunedTable(t, before).runs ==> PrunedTable(t, before).runs[id] == t.runs[id];
  }

  lemma {:induction false} OneRunStaysWoken(t: Table, op: Operation, was: Instant, now: Instant, last: Instant, id: Id)
    requires DistinctOrders(t) && OnOneRun(op) && id in t.runs && was <= now && WokenRecord(t.runs[id].record, was)
    ensures var u := Next(t, op, now, last); id in u.runs && WokenRecord(u.runs[id].record, now)
  {
    OneRunNext(t, op, now, last);
    if Lands(t, op, now, last) && op.id == id {
      NewRecordStaysWoken(t.runs[id].record, op, was, now);
    }
  }

  lemma EnqueueStaysWoken(t: Table, other: Id, r: NewRun, was: Instant, now: Instant, id: Id)
    requires id in t.runs && id != other && was <= now && WokenRecord(t.runs[id].record, was)
    ensures id in Enqueued(t, other, r, now).runs
    ensures WokenRecord(Enqueued(t, other, r, now).runs[id].record, now)
  {
  }

  lemma ClaimStaysWoken(t: Table, queue: string, worker: string, was: Instant, now: Instant, ttl: nat, id: Id)
    requires Valid(t) && id in t.runs && was <= now && WokenRecord(t.runs[id].record, was)
    ensures var u := ClaimResult(t, queue, worker, now, ttl).0;
            id in u.runs && (WokenRecord(u.runs[id].record, now) || TakenUp(t, u, id))
  {
    ClaimHasEffect(t, Candidates(t, queue), worker, now, ttl);
    var (u, who) := ClaimResult(t, queue, worker, now, ttl);
    if Some(id) != who {
      assert Untaken(t.runs[id], u.runs[id], now);
    }
  }

  /** Once woken, a run stays woken until a claim takes it up, so a wake that arrives before the run
      parks is kept for the next wait. */
  lemma {:induction false} WokenStays(t: Table, op: Operation, was: Instant, now: Instant, last: Instant, id: Id)
    requires Valid(t) && EnqueuesFresh(t, op) && was <= now && Woken(t, id, was) && id in t.runs
    ensures Woken(Next(t, op, now, last), id, now) || TakenUp(t, Next(t, op, now, last), id)
  {
    var u := Next(t, op, now, last);
    WokenIs(t, id, was);
    WokenIs(u, id, now);
    match op
    case Enqueue(other, r) => EnqueueStaysWoken(t, other, r, was, now, id);
    case Claim(queue, worker, ttl) =>
      if GoodTtl(now, ttl, last) {
        ClaimStaysWoken(t, queue, worker, was, now, ttl, id);
      }
    case Prune(before) => PruneStaysWoken(t, before, was, now, id);
    case _ => OneRunStaysWoken(t, op, was, now, last, id);
  }

  /** Time does not go back from `was` on. */
  predicate InTime(was: Instant, es: seq<Event>)
    decreases |es|
  {
    es == [] || (was <= es[0].now && InTime(es[0].now, es[1..]))
  }

  function EndOf(was: Instant, es: seq<Event>): Instant
    decreases |es|
  {
    if es == [] then was else EndOf(es[0].now, es[1..])
  }

  /** Some step of a run takes the run `id` up. */
  ghost predicate TakenUpDuring(t: Table, es: seq<Event>, last: Instant, id: Id)
    requires Valid(t) && FreshIds(t, es)
    decreases |es|
  {
    es != [] &&
    (NextKeepsValid(t, es[0].op, es[0].now, last);
     FreshTail(t, es, last);
     var u := Next(t, es[0].op, es[0].now, last);
     TakenUp(t, u, id) || TakenUpDuring(u, es[1..], last, id))
  }

  /** A wake is not lost: over every run of the store in which time does not go back, a woken run is
      still woken at the end, or some step took it up. */
  lemma {:induction false} WokenUntilTaken(t: Table, es: seq<Event>, was: Instant, last: Instant, id: Id)
    requires Valid(t) && FreshIds(t, es) && InTime(was, es) && Woken(t, id, was)
    requires forall k :: 0 <= k < |es| && es[k].op.Enqueue? ==> es[k].op.id != id
    ensures Woken(Run(t, es, last), id, EndOf(was, es)) || TakenUpDuring(t, es, last, id)
    decreases |es|
  {
    if es != [] {
      var e := es[0];
      var u := Next(t, e.op, e.now, last);
      NextKeepsValid(t, e.op, e.now, last);
      FreshTail(t, es, last);
      if id in t.runs {
        WokenStays(t, e.op, was, e.now, last, id);
      } else if id in u.runs {
        NextNames(t, e.op, e.now, last, id);
      }
      if !TakenUp(t, u, id) {
        WokenUntilTaken(u, es[1..], e.now, last, id);
      }
    }
  }

  /** After a wake, over every run of the store in which time does not go back, the run is still woken or
      some step took it up. */
  lemma {:induction false} WakeIsNotLost(t: Table, es: seq<Event>, now: Instant, last: Instant, id: Id)
    requires Valid(t) && FreshIds(Next(t, Wake(id), now, last), es) && InTime(now, es)
    requires forall k :: 0 <= k < |es| && es[k].op.Enqueue? ==> es[k].op.id != id
    ensures Valid(Next(t, Wake(id), now, last))
    ensures var u := Next(t, Wake(id), now, last);
            Woken(Run(u, es, last), id, EndOf(now, es)) || TakenUpDuring(u, es, last, id)
  {
    NextKeepsValid(t, Wake(id), now, last);
    WakeIsWoken(t, id, now, last);
    WokenUntilTaken(Next(t, Wake(id), now, last), es, now, last, id);
  }
}
