/** Exactly when runs that share a concurrency key can be started together (adk-core/src/run_store.rs):
    `enqueue` reads the clock before it takes the lock, and a run stamped too early is claimed beside
    the one that has started. */
module RunExclusion {
  import opened RunQueue
  import opened RunFencing
  import opened RunClaims
  import opened Wrappers

  predicate AreStarted(t: Table, i: Id, j: Id) {
    && i in t.runs && j in t.runs && i != j && Rivals(t.runs[i], t.runs[j])
    && IsStarted(t.runs[i].record.state) && IsStarted(t.runs[j].record.state)
  }

  /** Two runs of one queue and concurrency key are started. */
  ghost predicate TwoStarted(t: Table) {
    exists i, j :: AreStarted(t, i, j)
  }

  lemma ExclusiveStartsOne(t: Table)
    requires Valid(t) && OnlyOldestStarted(t)
    ensures !TwoStarted(t)
  {
    if i, j :| AreStarted(t, i, j) {
      OneStartedAtATime(t, i, j);
    }
  }

  // ---- A run that overtakes a started one is claimed beside it ----

  /** The queued run `id` can start now and comes before its started rival `j`, and before all others. */
  ghost predicate Overtakes(t: Table, id: Id, j: Id, now: Instant) {
    && Valid(t) && id in t.runs && j in t.runs && id != j
    && Rivals(t.runs[id], t.runs[j]) && OrderLess(t.runs[id], t.runs[j])
    && IsStarted(t.runs[j].record.state)
    && t.runs[id].record.state == Queued
    && (t.runs[id].record.notBefore.None? || t.runs[id].record.notBefore.value <= now)
    && forall k :: k in t.runs && Rivals(t.runs[k], t.runs[id]) ==> !OrderLess(t.runs[k], t.runs[id])
  }

  function ClaimableSet(t: Table, queue: string, now: Instant): set<Id> {
    set i | i in CandidateSet(t, queue) && Claimable(t, i, now)
  }

  lemma OvertakingIsClaimable(t: Table, id: Id, j: Id, now: Instant)
    requires Overtakes(t, id, j, now)
    ensures id in ClaimableSet(t, t.runs[id].record.run.queue, now)
  {
  }

  /** The first claimable candidate is no later than `id`. */
  lemma FirstIsNoLater(t: Table, id: Id, cs: seq<Id>, k: nat, now: Instant)
    requires id in t.runs && InOrder(t, CandidateSet(t, t.runs[id].record.run.queue), cs)
    requires OldestClaimable(t, cs, k, now) && Claimable(t, id, now) && id in cs
    ensures cs[k] == id || OrderLess(t.runs[cs[k]], t.runs[id])
    ensures id !in cs[..k] && forall i :: i in cs[..k] ==> OrderLess(t.runs[i], t.runs[id])
  {
    var m :| 0 <= m < |cs| && cs[m] == id;
    assert k <= m;
  }

  /** What one claim makes of a table: some expired runs failed, one run claimed. */
  ghost predicate ClaimStep(t: Table, u: Table, gone: set<Id>, c: Id, worker: string, now: Instant) {
    && c in t.runs && c !in gone && !IsTerminal(t.runs[c].record.state) && Claimable(t, c, now)
    && (forall i :: i in gone ==> i in t.runs && Expires(t.runs[i], now))
    && u == Put(FailedAll(t, gone, now), c, ClaimedRecord(t.runs[c].record, worker, now, 1))
  }

  lemma ClaimStepAt(t: Table, u: Table, gone: set<Id>, c: Id, worker: string, now: Instant, i: Id)
    requires ClaimStep(t, u, gone, c, worker, now) && i in t.runs
    ensures i in u.runs
    ensures u.runs[i] ==
            if i == c then t.runs[c].(record := ClaimedRecord(t.runs[c].record, worker, now, 1))
            else if i in gone then t.runs[i].(record := ExhaustedRecord(t.runs[i].record, now))
            else t.runs[i]
  {
  }

  /** A claim makes no run claimable, and the one it takes is not any more. */
  lemma {:induction false} ClaimShrinks(t: Table, u: Table, gone: set<Id>, queue: string, c: Id, worker: string, now: Instant)
    requires ClaimStep(t, u, gone, c, worker, now) && t.runs[c].record.run.queue == queue
    ensures ClaimableSet(u, queue, now) <= ClaimableSet(t, queue, now) - {c}
    ensures c in ClaimableSet(t, queue, now)
  {
    forall i | i in ClaimableSet(u, queue, now) ensures i in ClaimableSet(t, queue, now) && i != c {
      ClaimStepAt(t, u, gone, c, worker, now, i);
      if t.runs[i].record.state == Queued {
        forall j | j in t.runs && Rivals(t.runs[j], t.runs[i]) && OrderLess(t.runs[j], t.runs[i])
          ensures Expires(t.runs[j], now)
        {
          ClaimStepAt(t, u, gone, c, worker, now, j);
        }
      }
    }
  }

  /** A claim takes the overtaking run, or another before it that leaves it overtaking. */
  lemma {:induction false} ClaimMovesOn(t: Table, u: Table, gone: set<Id>, c: Id, worker: string, now: Instant, id: Id, j: Id)
    requires Overtakes(t, id, j, now) && ClaimStep(t, u, gone, c, worker, now) && Valid(u)
    requires c == id || OrderLess(t.runs[c], t.runs[id])
    requires forall i :: i in gone ==> OrderLess(t.runs[i], t.runs[id])
    ensures if c == id then AreStarted(u, id, j) else Overtakes(u, id, j, now)
  {
    ClaimStepAt(t, u, gone, c, worker, now, id);
    ClaimStepAt(t, u, gone, c, worker, now, j);
    if c != id {
      forall k | k in u.runs && Rivals(u.runs[k], u.runs[id]) ensures !OrderLess(u.runs[k], u.runs[id]) {
        ClaimStepAt(t, u, gone, c, worker, now, k);
      }
    }
  }

  lemma ClaimIsStep(t: Table, id: Id, j: Id, worker: string, now: Instant) returns (gone: set<Id>, c: Id)
    requires Overtakes(t, id, j, now)
    ensures ClaimStep(t, ClaimResult(t, t.runs[id].record.run.queue, worker, now, 1).0, gone, c, worker, now)
    ensures t.runs[c].record.run.queue == t.runs[id].record.run.queue
    ensures c == id || OrderLess(t.runs[c], t.runs[id])
    ensures forall i :: i in gone ==> OrderLess(t.runs[i], t.runs[id])
  {
    var queue := t.runs[id].record.run.queue;
    var cs := Candidates(t, queue);
    ClaimTakesOldest(t, queue, worker, now, 1);
    OvertakingIsClaimable(t, id, j, now);
    var m :| 0 <= m < |cs| && cs[m] == id;
    var result := ClaimResult(t, queue, worker, now, 1);
    assert result.1.Some?;
    c := result.1.value;
    var k: nat :| OldestClaimable(t, cs, k, now) && cs[k] == c &&
                  result.0 == Put(FailedAll(t, ExpiredIn(t, cs[..k], now), now), c, ClaimedRecord(t.runs[c].record, worker, now, 1));
    gone := ExpiredIn(t, cs[..k], now);
    FirstIsNoLater(t, id, cs, k, now);
    assert c in cs;
  }

  /** Claims of one queue, all at one instant. */
  predicate AreClaims(cs: seq<Event>, now: Instant) {
    forall i :: 0 <= i < |cs| ==> cs[i].op.Claim? && cs[i].op.ttl == 1 && cs[i].now == now
  }

  lemma {:induction false} ClaimThenRun(t: Table, e: Event, rest: seq<Event>, last: Instant)
    requires Valid(t) && e.op.Claim? && Valid(Next(t, e.op, e.now, last)) && AreClaims(rest, e.now)
    ensures FreshIds(t, [e] + rest) && FreshIds(Next(t, e.op, e.now, last), rest)
    ensures Run(t, [e] + rest, last) == Run(Next(t, e.op, e.now, last), rest, last)
  {
    var cs := [e] + rest;
    assert cs[0] == e && cs[1..] == rest;
  }

  lemma SubsetSize(a: set<Id>, b: set<Id>)
    requires a <= b
    ensures |a| <= |b|
  {
    if a != {} {
      var x :| x in a;
      SubsetSize(a - {x}, b - {x});
    }
  }

  lemma Smaller(a: set<Id>, b: set<Id>, c: Id)
    requires a <= b - {c} && c in b
    ensures |a| < |b|
  {
    SubsetSize(a, b - {c});
  }

  /** Claiming again and again at one instant starts the overtaking run beside its rival. */
  lemma {:induction false} ClaimsStartBoth(t: Table, id: Id, j: Id, worker: string, now: Instant, last: Instant)
    returns (cs: seq<Event>)
    requires Overtakes(t, id, j, now) && now + 1 <= last
    ensures AreClaims(cs, now) && FreshIds(t, cs) && AreStarted(Run(t, cs, last), id, j)
    decreases |ClaimableSet(t, t.runs[id].record.run.queue, now)|
  {
    var queue := t.runs[id].record.run.queue;
    var e := Event(Claim(queue, worker, 1), now);
    var u := Next(t, e.op, now, last);
    NextKeepsValid(t, e.op, now, last);
    var gone, c := ClaimIsStep(t, id, j, worker, now);
    ClaimMovesOn(t, u, gone, c, worker, now, id, j);
    if c == id {
      ClaimThenRun(t, e, [], last);
      cs := [e] + [];
    } else {
      ClaimShrinks(t, u, gone, queue, c, worker, now);
      ClaimStepAt(t, u, gone, c, worker, now, id);
      Smaller(ClaimableSet(u, queue, now), ClaimableSet(t, queue, now), c);
      var rest := ClaimsStartBoth(u, id, j, worker, now, last);
      ClaimThenRun(t, e, rest, last);
      cs := [e] + rest;
    }
  }

  // ---- An enqueue stamped out of order ----

  lemma {:induction false} InsertOvertakes(m: Table, id: Id, r: NewRun, now: Instant, later: Instant, j: Id)
    requires OnlyOldestStarted(m) && id !in m.runs && Valid(Insert(m, id, r, now)) && r.concurrencyKey.Some?
    requires r.notBefore.Some? ==> r.notBefore.value <= later
    requires j in m.runs && IsHolder(m.runs[j], r.queue, r.concurrencyKey.value)
    requires IsStarted(m.runs[j].record.state) && m.runs[j].record.createdAt > now
    ensures Overtakes(Insert(m, id, r, now), id, j, later)
  {
    var u := Insert(m, id, r, now);
    assert u.runs[j] == m.runs[j];
    forall k | k in u.runs && Rivals(u.runs[k], u.runs[id]) ensures !OrderLess(u.runs[k], u.runs[id]) {
      if k != id && k != j && OrderLess(u.runs[k], u.runs[id]) {
        assert Rivals(m.runs[k], m.runs[j]) && OrderLess(m.runs[k], m.runs[j]);
      }
    }
  }

  /** A run enqueued with a timestamp older than a started run of its key overtakes it. */
  lemma {:induction false} OlderStampOvertakes(t: Table, id: Id, r: NewRun, now: Instant, later: Instant) returns (j: Id)
    requires Valid(t) && OnlyOldestStarted(t) && id !in t.runs && Creates(t, r) && !StampedInOrder(t, r, now)
    requires r.notBefore.Some? ==> r.notBefore.value <= later
    ensures Overtakes(Enqueued(t, id, r, now), id, j, later)
  {
    var m := Cleared(t, r, now);
    ClearedInPlace(t, r, now);
    ClearedKeepsExclusive(t, r, now);
    StampedIsNoneLater(t, r, now);
    EnqueueKeepsValid(t, id, r, now);
    var key := r.concurrencyKey.value;
    j :| j in m.runs && IsHolder(m.runs[j], r.queue, key) && IsStarted(m.runs[j].record.state) && m.runs[j].record.createdAt > now;
    assert Enqueued(t, id, r, now) == Insert(m, id, r, now);
    InsertOvertakes(m, id, r, now, later, j);
  }

  /** Claims at one instant can bring two runs of a key to be started. */
  ghost predicate CanStartTwo(t: Table, last: Instant)
    requires Valid(t)
  {
    exists cs: seq<Event>, at: Instant :: AreClaims(cs, at) && FreshIds(t, cs) && TwoStarted(Run(t, cs, last))
  }

  /** The new run can become due at some instant the store can hold. */
  predicate CanBeDue(r: NewRun, last: Instant) {
    r.notBefore.Some? ==> r.notBefore.value < last
  }

  /** A run stamped earlier than a started run of its concurrency key is started beside it by claims at
      any instant at which it is due. */
  lemma {:induction false} OlderStampStartsTwo(t: Table, id: Id, r: NewRun, now: Instant, later: Instant, last: Instant)
    requires Valid(t) && OnlyOldestStarted(t) && id !in t.runs && Creates(t, r) && !StampedInOrder(t, r, now)
    requires (r.notBefore.Some? ==> r.notBefore.value <= later) && later + 1 <= last
    ensures Valid(Enqueued(t, id, r, now)) && CanStartTwo(Enqueued(t, id, r, now), last)
  {
    EnqueueKeepsValid(t, id, r, now);
    var j := OlderStampOvertakes(t, id, r, now, later);
    var cs := ClaimsStartBoth(Enqueued(t, id, r, now), id, j, "worker", later, last);
  }

  lemma {:induction false} ClaimsAreStampedInOrder(t: Table, cs: seq<Event>, at: Instant, last: Instant)
    requires Valid(t) && AreClaims(cs, at) && FreshIds(t, cs)
    ensures StampsInOrder(t, cs, last)
    decreases |cs|
  {
    if cs != [] {
      NextKeepsValid(t, cs[0].op, cs[0].now, last);
      FreshTail(t, cs, last);
      ClaimsAreStampedInOrder(Next(t, cs[0].op, cs[0].now, last), cs[1..], at, last);
    }
  }

  lemma {:induction false} ExclusiveCannotStartTwo(t: Table, last: Instant)
    requires Valid(t) && OnlyOldestStarted(t)
    ensures !CanStartTwo(t, last)
  {
    if cs: seq<Event>, at: Instant :| AreClaims(cs, at) && FreshIds(t, cs) && TwoStarted(Run(t, cs, last)) {
      ClaimsAreStampedInOrder(t, cs, at, last);
      KeysRunOneAtATime(t, cs, last);
      ExclusiveStartsOne(Run(t, cs, last));
    }
  }

  /** Enqueueing a run makes it possible to start two runs of its key exactly when its timestamp is older
      than that of a started run of the key. */
  lemma {:induction false} EnqueueStartsTwoExactly(t: Table, id: Id, r: NewRun, now: Instant, last: Instant)
    requires Valid(t) && OnlyOldestStarted(t) && id !in t.runs && Creates(t, r) && CanBeDue(r, last)
    ensures Valid(Enqueued(t, id, r, now))
    ensures CanStartTwo(Enqueued(t, id, r, now), last) <==> !StampedInOrder(t, r, now)
  {
    EnqueueKeepsValid(t, id, r, now);
    if StampedInOrder(t, r, now) {
      EnqueueKeepsExclusiveExactly(t, id, r, now);
      ExclusiveCannotStartTwo(Enqueued(t, id, r, now), last);
    } else {
      OlderStampStartsTwo(t, id, r, now, last - 1, last);
    }
  }

  // ---- Whole runs ----

  /** At some point of the run, two runs of a key are started or claims can start them. */
  ghost predicate EverStartsTwo(t: Table, es: seq<Event>, last: Instant)
    requires Valid(t) && FreshIds(t, es)
    decreases |es|
  {
    CanStartTwo(t, last) ||
    (es != [] &&
     (NextKeepsValid(t, es[0].op, es[0].now, last);
      FreshTail(t, es, last);
      EverStartsTwo(Next(t, es[0].op, es[0].now, last), es[1..], last)))
  }

  predicate AllCanBeDue(es: seq<Event>, last: Instant) {
    forall i :: 0 <= i < |es| && es[i].op.Enqueue? ==> CanBeDue(es[i].op.run, last)
  }

  /** Over every run of the store, runs that share a concurrency key are one at a time, and stay so under
      any claims, exactly when every enqueue is stamped in order. */
  lemma {:induction false} KeysRunOneAtATimeExactly(t: Table, es: seq<Event>, last: Instant)
    requires Valid(t) && FreshIds(t, es) && OnlyOldestStarted(t) && AllCanBeDue(es, last)
    ensures EverStartsTwo(t, es, last) <==> !StampsInOrder(t, es, last)
    decreases |es|
  {
    ExclusiveCannotStartTwo(t, last);
    if es != [] {
      var e := es[0];
      var u := Next(t, e.op, e.now, last);
      NextKeepsValid(t, e.op, e.now, last);
      FreshTail(t, es, last);
      if InOrderStep(t, e) {
        NextKeepsExclusive(t, e, last);
        KeysRunOneAtATimeExactly(u, es[1..], last);
      } else {
        EnqueueStartsTwoExactly(t, e.op.id, e.op.run, e.now, last);
        assert CanStartTwo(u, last);
      }
    }
  }

  // ---- A run of the store that starts two ----

  const KEYED: NewRun := NewRun("q", "app", "user", None, "agent", "", None, Some("k"), EnqueueBehind, None, 3, None)

  /** The second enqueue read its clock at 1, before the first one at 2, and took the lock after the claim. */
  const STALE_CLOCK: seq<Event> :=
    [Event(Enqueue("a", KEYED), 2), Event(Claim("q", "worker", 10), 3), Event(Enqueue("b", KEYED), 1)]

  lemma OnlyCandidateIsClaimed(t: Table, queue: string, id: Id, worker: string, now: Instant, ttl: nat)
    requires Valid(t) && CandidateSet(t, queue) == {id} && Claimable(t, id, now)
    ensures var u := ClaimResult(t, queue, worker, now, ttl).0;
            id in u.runs && u.runs[id].record == ClaimedRecord(t.runs[id].record, worker, now, ttl)
  {
    var cs := Candidates(t, queue);
    ClaimTakesOldest(t, queue, worker, now, ttl);
    assert id in CandidateSet(t, queue) && id in cs;
    var m :| 0 <= m < |cs| && cs[m] == id;
    forall c | c in cs ensures c == id {
      assert c in CandidateSet(t, queue);
    }
    var result := ClaimResult(t, queue, worker, now, ttl);
    assert Claimable(t, cs[m], now);
    assert result.1.Some?;
    var k: nat :| OldestClaimable(t, cs, k, now) && cs[k] == result.1.value;
    assert cs[k] in cs;
    assert result.1.value == id;
  }

  lemma StaleFirst()
    ensures var t := Enqueued(EMPTY, "a", KEYED, 2);
            && Valid(t) && t.runs == map["a" := Entry(QueuedRecord("a", KEYED, 2), 0)]
            && CandidateSet(t, "q") == {"a"} && Claimable(t, "a", 3)
  {
    EmptyIsValid();
    EnqueueKeepsValid(EMPTY, "a", KEYED, 2);
    assert Enqueued(EMPTY, "a", KEYED, 2) == Insert(EMPTY, "a", KEYED, 2);
  }

  lemma StaleClaimed(last: Instant)
    requires last >= 13
    ensures var t := Enqueued(EMPTY, "a", KEYED, 2);
            && Valid(t)
            && var u := Next(t, Claim("q", "worker", 10), 3, last);
               && Valid(u) && u.runs.Keys == {"a"}
               && u.runs["a"].record == ClaimedRecord(QueuedRecord("a", KEYED, 2), "worker", 3, 10)
  {
    StaleFirst();
    var t := Enqueued(EMPTY, "a", KEYED, 2);
    OnlyCandidateIsClaimed(t, "q", "a", "worker", 3, 10);
    ClaimKeepsValid(t, "q", "worker", 3, 10);
  }

  lemma NotStampedInOrder(u: Table)
    requires "a" in u.runs && u.runs["a"].record == ClaimedRecord(QueuedRecord("a", KEYED, 2), "worker", 3, 10)
    ensures Creates(u, KEYED) && !StampedInOrder(u, KEYED, 1)
  {
    assert IsHolder(u.runs["a"], "q", "k");
  }

  /** From an empty store, a clock read before the lock is taken lets two runs of a key be started. */
  lemma StaleClockStartsTwo(last: Instant)
    requires last >= 13
    ensures Valid(EMPTY) && FreshIds(EMPTY, STALE_CLOCK) && EverStartsTwo(EMPTY, STALE_CLOCK, last)
  {
    EmptyIsValid();
    StaleFirst();
    StaleClaimed(last);
    var t := Enqueued(EMPTY, "a", KEYED, 2);
    var u := Next(t, STALE_CLOCK[1].op, 3, last);
    assert STALE_CLOCK[1..][0] == STALE_CLOCK[1] && STALE_CLOCK[1..][1..] == [STALE_CLOCK[2]];
    FreshTail(EMPTY, STALE_CLOCK, last);
    FreshTail(t, STALE_CLOCK[1..], last);
    NotStampedInOrder(u);
    assert !StampsInOrder(u, [STALE_CLOCK[2]], last);
    KeysRunOneAtATimeExactly(EMPTY, STALE_CLOCK, last);
  }
}
