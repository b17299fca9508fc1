/** The in-memory spend ledger (adk-core/src/spend.rs): budget held for spend about to happen, spend
    recorded once it did, and the caps both draw on. */
module SpendLedger {
  import opened Wrappers

  const U64_MAX: int := 0xFFFF_FFFF_FFFF_FFFF

  type U64 = x: int | 0 <= x <= U64_MAX
  type Positive = x: int | x >= 1 witness 1

  // ---- Time ----

  datatype Date = Date(year: int, month: Positive, day: Positive)

  /** One reading of the clock: an instant and the UTC date it falls on. */
  datatype Now = Now(ticks: int, date: Date)

  predicate DateLeq(a: Date, b: Date) {
    a.year < b.year || (a.year == b.year && (a.month < b.month || (a.month == b.month && a.day <= b.day)))
  }

  predicate NotBefore(a: Now, b: Now) {
    a.ticks <= b.ticks && DateLeq(a.date, b.date)
  }

  datatype Period = Day | Month | Lifetime

  /** The first date of the window that contains `at`. */
  function WindowStart(p: Period, at: Date): Option<Date> {
    match p
    case Day => Some(at)
    case Month => Some(Date(at.year, at.month, 1))
    case Lifetime => None
  }

  // ---- Keys and limits ----

  datatype SpendKey = SpendKey(org: string, agent: Option<string>, vendor: Option<string>, period: Period)

  datatype Attribution = Attribution(org: string, agent: Option<string>, vendor: Option<string>)

  datatype Limit = Limit(key: SpendKey, max: U64)

  type Id = string

  datatype Hold = Hold(key: SpendKey, amount: U64, expiresAt: int)

  datatype Bucket = Bucket(who: Attribution, day: Date)

  function AttributionOf(k: SpendKey): Attribution {
    Attribution(k.org, k.agent, k.vendor)
  }

  predicate CoversAttribution(scope: SpendKey, a: Attribution) {
    && scope.org == a.org
    && (scope.agent.None? || a.agent == scope.agent)
    && (scope.vendor.None? || a.vendor == scope.vendor)
  }

  /** The periods are not compared. */
  predicate Covers(scope: SpendKey, entry: SpendKey) {
    CoversAttribution(scope, AttributionOf(entry))
  }

  /** Committed spend per attribution and day, and the unsettled reservations. */
  datatype Ledger = Ledger(committed: map<Bucket, U64>, holds: map<Id, Hold>)

  datatype Config = Config(limits: seq<Limit>, ttl: nat, lastTick: int)

  // ---- Sums ----

  function Saturate(n: nat): U64 {
    if n <= U64_MAX then n else U64_MAX
  }

  ghost function Sum<K>(m: map<K, U64>): nat
    decreases m.Keys
  {
    if m.Keys == {} then 0 else
      var k :| k in m.Keys;
      m[k] + Sum(m - {k})
  }

  lemma {:induction false} SumRemove<K>(m: map<K, U64>, k: K)
    requires k in m
    ensures Sum(m) == m[k] + Sum(m - {k})
    decreases m.Keys
  {
    var j :| j in m.Keys && Sum(m) == m[j] + Sum(m - {j});
    if j != k {
      SumRemove(m - {j}, k);
      SumRemove(m - {k}, j);
      assert m - {j} - {k} == m - {k} - {j};
    }
  }

  lemma SumInsert<K>(m: map<K, U64>, k: K, v: U64)
    requires k !in m
    ensures Sum(m[k := v]) == Sum(m) + v
  {
    SumRemove(m[k := v], k);
    assert m[k := v] - {k} == m;
  }

  /** Fewer or smaller entries sum to no more. */
  lemma {:induction false} SumLeq<K>(m: map<K, U64>, n: map<K, U64>)
    requires forall k :: k in m ==> k in n && m[k] <= n[k]
    ensures Sum(m) <= Sum(n)
    decreases m.Keys
  {
    if k :| k in m.Keys {
      SumRemove(m, k);
      SumRemove(n, k);
      SumLeq(m - {k}, n - {k});
    }
  }

  // ---- What a limit sees ----

  predicate InWindow(p: Period, now: Now, day: Date) {
    var since := WindowStart(p, now.date);
    since.None? || DateLeq(since.value, day)
  }

  function CommittedPart(l: Ledger, scope: SpendKey, p: Period, now: Now): map<Bucket, U64> {
    map b | b in l.committed && InWindow(p, now, b.day) && CoversAttribution(scope, b.who) :: l.committed[b]
  }

  function HeldPart(l: Ledger, scope: SpendKey, now: Now): map<Id, U64> {
    map i | i in l.holds && l.holds[i].expiresAt > now.ticks && Covers(scope, l.holds[i].key) :: l.holds[i].amount
  }

  /** Committed spend in the current window, before saturation. */
  ghost function Committed(l: Ledger, scope: SpendKey, p: Period, now: Now): nat {
    Sum(CommittedPart(l, scope, p, now))
  }

  /** Live holds, before saturation. */
  ghost function Held(l: Ledger, scope: SpendKey, now: Now): nat {
    Sum(HeldPart(l, scope, now))
  }

  ghost function Consumed(l: Ledger, c: Limit, now: Now): nat {
    Committed(l, c.key, c.key.period, now) + Held(l, c.key, now)
  }

  // ---- The operations ----

  datatype Outcome =
    | Reserved(id: Id)
    | LimitExceeded(limit: SpendKey, max: U64, consumed: U64, requested: U64)
    | UnknownReservation(id: Id)
    | Settled

  datatype Operation =
    | Reserve(key: SpendKey, amount: U64, id: Id)
    | Commit(id: Id, actual: U64)
    | Release(id: Id)

  ghost function SaturatedConsumed(l: Ledger, c: Limit, now: Now): U64 {
    Saturate(Saturate(Committed(l, c.key, c.key.period, now)) + Saturate(Held(l, c.key, now)))
  }

  /** The limit refuses: committed and held spend, each saturated, leave no room for the amount. */
  ghost predicate Refuses(l: Ledger, c: Limit, key: SpendKey, amount: U64, now: Now) {
    Covers(c.key, key) && Saturate(SaturatedConsumed(l, c, now) + amount) > c.max
  }

  ghost function FirstRefusal(l: Ledger, cs: seq<Limit>, key: SpendKey, amount: U64, now: Now): Option<Limit> {
    if cs == [] then None
    else if Refuses(l, cs[0], key, amount, now) then Some(cs[0])
    else FirstRefusal(l, cs[1..], key, amount, now)
  }

  function Expiry(c: Config, now: Now): int {
    if now.ticks + c.ttl <= c.lastTick then now.ticks + c.ttl else c.lastTick
  }

  function BucketOf(key: SpendKey, now: Now): Bucket {
    Bucket(AttributionOf(key), now.date)
  }

  function Recorded(committed: map<Bucket, U64>, b: Bucket, actual: U64): map<Bucket, U64> {
    committed[b := Saturate((if b in committed then committed[b] else 0) + actual)]
  }

  ghost function Next(c: Config, l: Ledger, op: Operation, now: Now): Ledger {
    match op
    case Reserve(key, amount, id) =>
      if FirstRefusal(l, c.limits, key, amount, now).Some? then l
      else l.(holds := l.holds[id := Hold(key, amount, Expiry(c, now))])
    case Commit(id, actual) =>
      if id !in l.holds then l
      else Ledger(Recorded(l.committed, BucketOf(l.holds[id].key, now), actual), l.holds - {id})
    case Release(id) => l.(holds := l.holds - {id})
  }

  ghost function Answer(c: Config, l: Ledger, op: Operation, now: Now): Outcome {
    match op
    case Reserve(key, amount, id) =>
      (match FirstRefusal(l, c.limits, key, amount, now)
       case Some(cap) => LimitExceeded(cap.key, cap.max, SaturatedConsumed(l, cap, now), amount)
       case None => Reserved(id))
    case Commit(id, _) => if id in l.holds then Settled else UnknownReservation(id)
    case Release(id) => if id in l.holds then Settled else UnknownReservation(id)
  }

  // ---- The ledger itself ----

  /** A saturating sum over a dictionary, in whatever order it is iterated. */
  method Total<K(==)>(m: map<K, U64>) returns (total: U64)
    ensures total == Saturate(Sum(m))
  {
    total := 0;
    var todo := m.Keys;
    ghost var done: map<K, U64> := map[];
    while todo != {}
      invariant todo <= m.Keys && done.Keys == m.Keys - todo
      invariant forall k :: k in done ==> done[k] == m[k]
      invariant total == Saturate(Sum(done))
    {
      var k :| k in todo;
      SumInsert(done, k, m[k]);
      done := done[k := m[k]];
      total := Saturate(total + m[k]);
      todo := todo - {k};
    }
    assert done == m;
  }

  class InMemorySpendLedger {
    const config: Config
    var committed: map<Bucket, U64>
    var holds: map<Id, Hold>

    constructor (config: Config)
      ensures this.config == config
      ensures View() == Ledger(map[], map[])
    {
      this.config := config;
      committed := map[];
      holds := map[];
    }

    function View(): Ledger
      reads this
    {
      Ledger(committed, holds)
    }

    /** The saturating sum of the committed spend a scope covers in a window. */
    method CommittedTotal(scope: SpendKey, p: Period, now: Now) returns (total: U64)
      ensures total == Saturate(Committed(View(), scope, p, now))
    {
      total := Total(CommittedPart(View(), scope, p, now));
    }

    /** The saturating sum of the live holds a scope covers. */
    method HeldTotal(scope: SpendKey, now: Now) returns (total: U64)
      ensures total == Saturate(Held(View(), scope, now))
    {
      total := Total(HeldPart(View(), scope, now));
    }

    /** Holds an amount against every limit that covers the key, under an identifier not in use. */
    method ReserveBudget(key: SpendKey, amount: U64, now: Now, id: Id) returns (r: Outcome)
      requires id !in holds
      modifies this
      ensures View() == Next(config, old(View()), Reserve(key, amount, id), now)
      ensures r == Answer(config, old(View()), Reserve(key, amount, id), now)
    {
      for i := 0 to |config.limits|
        invariant View() == old(View())
        invariant FirstRefusal(View(), config.limits, key, amount, now) ==
                  FirstRefusal(View(), config.limits[i..], key, amount, now)
      {
        var limit := config.limits[i];
        assert config.limits[i..][0] == limit && config.limits[i..][1..] == config.limits[i + 1..];
        if !Covers(limit.key, key) {
          continue;
        }
        var spent := CommittedTotal(limit.key, limit.key.period, now);
        var held := HeldTotal(limit.key, now);
        var consumed := Saturate(spent as int + held as int);
        if Saturate(consumed + amount) > limit.max {
          return LimitExceeded(limit.key, limit.max, consumed, amount);
        }
      }
      holds := holds[id := Hold(key, amount, Expiry(config, now))];
      r := Reserved(id);
    }

    /** Records what was spent and drops the hold, whether or not the hold is still live. */
    method CommitSpend(id: Id, actual: U64, now: Now) returns (r: Outcome)
      modifies this
      ensures View() == Next(config, old(View()), Commit(id, actual), now)
      ensures r == Answer(config, old(View()), Commit(id, actual), now)
    {
      if id !in holds {
        return UnknownReservation(id);
      }
      var hold := holds[id];
      holds := holds - {id};
      committed := Recorded(committed, BucketOf(hold.key, now), actual);
      r := Settled;
    }

    method ReleaseHold(id: Id, now: Now) returns (r: Outcome)
      modifies this
      ensures View() == Next(config, old(View()), Release(id), now)
      ensures r == Answer(config, old(View()), Release(id), now)
    {
      r := if id in holds then Settled else UnknownReservation(id);
      holds := holds - {id};
    }
  }

  // ---- One limit through one operation ----

  lemma HeldShrinks(l: Ledger, scope: SpendKey, a: Now, b: Now)
    requires NotBefore(a, b)
    ensures Held(l, scope, b) <= Held(l, scope, a)
  {
    SumLeq(HeldPart(l, scope, b), HeldPart(l, scope, a));
  }

  lemma WindowMoves(p: Period, a: Now, b: Now, day: Date)
    requires NotBefore(a, b) && InWindow(p, b, day)
    ensures InWindow(p, a, day)
  {
  }

  /** As time passes a limit sees no more: windows move forward and holds expire. */
  lemma ConsumedShrinks(l: Ledger, c: Limit, a: Now, b: Now)
    requires NotBefore(a, b)
    ensures Consumed(l, c, b) <= Consumed(l, c, a)
  {
    HeldShrinks(l, c.key, a, b);
    forall k | k in CommittedPart(l, c.key, c.key.period, b)
      ensures k in CommittedPart(l, c.key, c.key.period, a)
    {
      WindowMoves(c.key.period, a, b, k.day);
    }
    SumLeq(CommittedPart(l, c.key, c.key.period, b), CommittedPart(l, c.key, c.key.period, a));
  }

  /** What a hold contributes to a limit now. */
  function HoldShare(h: Hold, c: Limit, now: Now): U64 {
    if h.expiresAt > now.ticks && Covers(c.key, h.key) then h.amount else 0
  }

  lemma HeldAfterInsert(l: Ledger, c: Limit, now: Now, id: Id, h: Hold)
    requires id !in l.holds
    ensures Held(l.(holds := l.holds[id := h]), c.key, now) == Held(l, c.key, now) + HoldShare(h, c, now)
  {
    var m, n := HeldPart(l, c.key, now), HeldPart(l.(holds := l.holds[id := h]), c.key, now);
    if h.expiresAt > now.ticks && Covers(c.key, h.key) {
      SumInsert(m, id, h.amount);
      assert n == m[id := h.amount];
    } else {
      assert n == m;
    }
  }

  lemma HeldAfterRemove(l: Ledger, c: Limit, now: Now, id: Id)
    requires id in l.holds
    ensures Held(l, c.key, now) == Held(l.(holds := l.holds - {id}), c.key, now) + HoldShare(l.holds[id], c, now)
  {
    var l' := l.(holds := l.holds - {id});
    HeldAfterInsert(l', c, now, id, l.holds[id]);
    assert l'.(holds := l'.holds[id := l.holds[id]]) == l;
  }

  lemma TodayIsInWindow(p: Period, now: Now)
    ensures InWindow(p, now, now.date)
  {
  }

  lemma SumUpdate<K>(m: map<K, U64>, k: K, v: U64)
    ensures Sum(m[k := v]) == Sum(m) - (if k in m then m[k] else 0) + v
    ensures k in m ==> m[k] <= Sum(m)
  {
    if k in m {
      SumRemove(m, k);
      SumRemove(m[k := v], k);
      assert m[k := v] - {k} == m - {k};
    } else {
      SumInsert(m, k, v);
    }
  }

  lemma RecordedPart(l: Ledger, scope: SpendKey, p: Period, now: Now, b: Bucket, actual: U64)
    requires InWindow(p, now, b.day)
    ensures var r := l.(committed := Recorded(l.committed, b, actual));
            CommittedPart(r, scope, p, now) ==
            if CoversAttribution(scope, b.who) then CommittedPart(l, scope, p, now)[b := r.committed[b]]
            else CommittedPart(l, scope, p, now)
  {
  }

  /** Recording adds the amount to every scope that covers it, up to saturation of its bucket. */
  lemma CommittedAfterRecord(l: Ledger, scope: SpendKey, p: Period, now: Now, b: Bucket, actual: U64)
    requires InWindow(p, now, b.day)
    ensures var r := l.(committed := Recorded(l.committed, b, actual));
            var was := Committed(l, scope, p, now);
            var before := if b in l.committed then l.committed[b] else 0;
            Committed(r, scope, p, now) ==
            if CoversAttribution(scope, b.who) then was - before + Saturate(before + actual) else was
    ensures CoversAttribution(scope, b.who) && b in l.committed ==> l.committed[b] <= Committed(l, scope, p, now)
  {
    var r := l.(committed := Recorded(l.committed, b, actual));
    RecordedPart(l, scope, p, now, b, actual);
    if CoversAttribution(scope, b.who) {
      SumUpdate(CommittedPart(l, scope, p, now), b, r.committed[b]);
    }
  }

  /** A limit that can refuse at all refuses exactly when the exact sums leave no room. */
  lemma {:induction false} RefusalExactly(l: Ledger, c: Limit, key: SpendKey, amount: U64, now: Now)
    ensures c.max < U64_MAX ==>
              (Refuses(l, c, key, amount, now) <==> Covers(c.key, key) && Consumed(l, c, now) + amount > c.max)
    ensures c.max == U64_MAX ==> !Refuses(l, c, key, amount, now)
  {
  }

  lemma FirstRefusalExactly(l: Ledger, cs: seq<Limit>, key: SpendKey, amount: U64, now: Now)
    ensures FirstRefusal(l, cs, key, amount, now).None? <==>
            forall i :: 0 <= i < |cs| ==> !Refuses(l, cs[i], key, amount, now)
  {
    if cs != [] {
      FirstRefusalExactly(l, cs[1..], key, amount, now);
    }
  }

  /** A reservation is granted exactly when it fits under every cap that covers it, a cap of the
      largest storable amount being none. */
  lemma {:induction false} ReserveExactly(c: Config, l: Ledger, key: SpendKey, amount: U64, id: Id, now: Now)
    ensures Answer(c, l, Reserve(key, amount, id), now).Reserved? <==>
            forall i :: 0 <= i < |c.limits| && Covers(c.limits[i].key, key) && c.limits[i].max < U64_MAX ==>
              Consumed(l, c.limits[i], now) + amount <= c.limits[i].max
    ensures !Answer(c, l, Reserve(key, amount, id), now).Reserved? ==> Next(c, l, Reserve(key, amount, id), now) == l
  {
    FirstRefusalExactly(l, c.limits, key, amount, now);
    forall i | 0 <= i < |c.limits|
      ensures Refuses(l, c.limits[i], key, amount, now) <==>
              Covers(c.limits[i].key, key) && c.limits[i].max < U64_MAX &&
              Consumed(l, c.limits[i], now) + amount > c.limits[i].max
    {
      RefusalExactly(l, c.limits[i], key, amount, now);
    }
  }

  // ---- What each operation adds and gives back ----

  /** A key that names no agent or vendor covers all of them; the organisation always has to agree. */
  lemma CoversMeaning(scope: SpendKey, key: SpendKey)
    ensures Covers(scope, key) <==>
            scope.org == key.org && (scope.agent == None || scope.agent == key.agent) &&
            (scope.vendor == None || scope.vendor == key.vendor)
  {
  }

  /** Of the days up to today, a day's window holds today, a month's those of the same month, and the
      lifetime window all. */
  lemma {:induction false} WindowMeaning(p: Period, now: Now, day: Date)
    requires DateLeq(day, now.date)
    ensures InWindow(p, now, day) <==>
            match p
            case Day => day == now.date
            case Month => day.year == now.date.year && day.month == now.date.month
            case Lifetime => true
  {
  }

  /** A granted reservation counts, under every key that covers it, until its time to live has passed, and
      not after. */
  lemma {:induction false} HoldCountsUntilExpiry(c: Config, l: Ledger, key: SpendKey, amount: U64, id: Id, now: Now, scope: SpendKey, at: Now)
    requires id !in l.holds && Answer(c, l, Reserve(key, amount, id), now).Reserved?
    ensures Held(Next(c, l, Reserve(key, amount, id), now), scope, at) ==
            Held(l, scope, at) +
            if at.ticks < now.ticks + c.ttl && at.ticks < c.lastTick && Covers(scope, key) then amount else 0
  {
    HeldAfterInsert(l, Limit(scope, 0), at, id, Hold(key, amount, Expiry(c, now)));
  }

  /** Releasing a hold gives back, under every key, exactly what it still counted there. */
  lemma {:induction false} ReleaseGivesBack(c: Config, l: Ledger, id: Id, now: Now, scope: SpendKey, at: Now)
    requires id in l.holds
    ensures Held(Next(c, l, Release(id), now), scope, at) ==
            Held(l, scope, at) -
            if at.ticks < l.holds[id].expiresAt && Covers(scope, l.holds[id].key) then l.holds[id].amount else 0
    ensures Next(c, l, Release(id), now).committed == l.committed
  {
    HeldAfterRemove(l, Limit(scope, 0), at, id);
  }

  /** A granted reservation and its release leave the ledger as it was. */
  lemma {:induction false} ReleaseUndoesReserve(c: Config, l: Ledger, key: SpendKey, amount: U64, id: Id, now: Now, later: Now)
    requires id !in l.holds && Answer(c, l, Reserve(key, amount, id), now).Reserved?
    ensures Answer(c, Next(c, l, Reserve(key, amount, id), now), Release(id), later) == Settled
    ensures Next(c, Next(c, l, Reserve(key, amount, id), now), Release(id), later) == l
  {
    var r := Next(c, l, Reserve(key, amount, id), now);
    assert r.holds - {id} == l.holds;
  }

  /** A commit moves a hold to committed spend: under every key that covers it the hold no longer counts, and
      the amount spent counts in every window that holds the day of the commit. */
  lemma {:induction false} CommitMovesHold(c: Config, l: Ledger, id: Id, actual: U64, now: Now, scope: SpendKey, p: Period)
    requires id in l.holds
    ensures var r := Next(c, l, Commit(id, actual), now);
            var b := BucketOf(l.holds[id].key, now);
            var had := if b in l.committed then l.committed[b] else 0;
            && Committed(r, scope, p, now) ==
               Committed(l, scope, p, now) +
               (if !Covers(scope, l.holds[id].key) then 0 else if had + actual <= U64_MAX then actual else U64_MAX - had)
            && Held(r, scope, now) ==
               Held(l, scope, now) -
               if now.ticks < l.holds[id].expiresAt && Covers(scope, l.holds[id].key) then l.holds[id].amount else 0
  {
    var b := BucketOf(l.holds[id].key, now);
    var r := Next(c, l, Commit(id, actual), now);
    var mid := l.(committed := Recorded(l.committed, b, actual));
    TodayIsInWindow(p, now);
    CommittedAfterRecord(l, scope, p, now, b, actual);
    assert CommittedPart(r, scope, p, now) == CommittedPart(mid, scope, p, now);
    HeldAfterRemove(l, Limit(scope, 0), now, id);
    assert HeldPart(r, scope, now) == HeldPart(l.(holds := l.holds - {id}), scope, now);
  }

  /** The limit leaves no room for the amount. */
  ghost predicate LeavesNoRoom(l: Ledger, cap: Limit, key: SpendKey, amount: U64, now: Now) {
    Covers(cap.key, key) && cap.max < U64_MAX && Consumed(l, cap, now) + amount > cap.max
  }

  /** A refusal names the first limit that leaves no room, with its cap, what counts against it, and what was
      asked. */
  lemma {:induction false} RefusalNamesFirst(l: Ledger, cs: seq<Limit>, key: SpendKey, amount: U64, now: Now)
    requires FirstRefusal(l, cs, key, amount, now).Some?
    ensures exists i :: 0 <= i < |cs| && cs[i] == FirstRefusal(l, cs, key, amount, now).value &&
                        LeavesNoRoom(l, cs[i], key, amount, now) &&
                        forall j :: 0 <= j < i ==> !LeavesNoRoom(l, cs[j], key, amount, now)
    decreases |cs|
  {
    RefusalExactly(l, cs[0], key, amount, now);
    if Refuses(l, cs[0], key, amount, now) {
      assert cs[0] == FirstRefusal(l, cs, key, amount, now).value;
    } else {
      RefusalNamesFirst(l, cs[1..], key, amount, now);
      var i :| 0 <= i < |cs[1..]| && cs[1..][i] == FirstRefusal(l, cs[1..], key, amount, now).value &&
               LeavesNoRoom(l, cs[1..][i], key, amount, now) &&
               forall j :: 0 <= j < i ==> !LeavesNoRoom(l, cs[1..][j], key, amount, now);
      forall j | 0 <= j < i + 1 ensures !LeavesNoRoom(l, cs[j], key, amount, now) {
        assert j > 0 ==> cs[1..][j - 1] == cs[j];
      }
      assert cs[i + 1] == cs[1..][i];
    }
  }

  lemma {:induction false} RefusalMeaning(c: Config, l: Ledger, key: SpendKey, amount: U64, id: Id, now: Now)
    requires Answer(c, l, Reserve(key, amount, id), now).LimitExceeded?
    ensures var a := Answer(c, l, Reserve(key, amount, id), now);
            exists i ::
              && 0 <= i < |c.limits| && LeavesNoRoom(l, c.limits[i], key, amount, now)
              && (forall j :: 0 <= j < i ==> !LeavesNoRoom(l, c.limits[j], key, amount, now))
              && a.limit == c.limits[i].key && a.max == c.limits[i].max && a.requested == amount
              && a.consumed == if Consumed(l, c.limits[i], now) <= U64_MAX then Consumed(l, c.limits[i], now) else U64_MAX
  {
    RefusalNamesFirst(l, c.limits, key, amount, now);
  }

  // ---- Caps hold ----

  /** Committed spend plus live holds is within the cap. */
  ghost predicate Within(l: Ledger, c: Limit, now: Now) {
    Consumed(l, c, now) <= c.max
  }

  ghost predicate WithinCaps(c: Config, l: Ledger, now: Now) {
    forall i :: 0 <= i < |c.limits| && c.limits[i].max < U64_MAX ==> Within(l, c.limits[i], now)
  }

  lemma ReserveKeepsCap(c: Config, l: Ledger, cap: Limit, key: SpendKey, amount: U64, id: Id, now: Now)
    requires id !in l.holds && cap in c.limits && cap.max < U64_MAX && Within(l, cap, now)
    ensures Within(Next(c, l, Reserve(key, amount, id), now), cap, now)
  {
    var i :| 0 <= i < |c.limits| && c.limits[i] == cap;
    FirstRefusalExactly(l, c.limits, key, amount, now);
    RefusalExactly(l, cap, key, amount, now);
    HeldAfterInsert(l, cap, now, id, Hold(key, amount, Expiry(c, now)));
  }

  /** After a commit a cap holds exactly when the actual amount fits in the room the cap has left once
      the hold's own share is given back. */
  lemma {:induction false} CommitExactly(c: Config, l: Ledger, cap: Limit, id: Id, actual: U64, now: Now)
    requires id in l.holds && cap.max < U64_MAX && Within(l, cap, now)
    ensures Within(Next(c, l, Commit(id, actual), now), cap, now) <==>
            !Covers(cap.key, l.holds[id].key) ||
            actual <= cap.max - (Consumed(l, cap, now) - HoldShare(l.holds[id], cap, now))
  {
    var h := l.holds[id];
    var b := BucketOf(h.key, now);
    var mid := l.(holds := l.holds - {id});
    HeldAfterRemove(l, cap, now, id);
    TodayIsInWindow(cap.key.period, now);
    CommittedAfterRecord(mid, cap.key, cap.key.period, now, b, actual);
    assert Next(c, l, Commit(id, actual), now) == mid.(committed := Recorded(mid.committed, b, actual));
    assert CommittedPart(mid, cap.key, cap.key.period, now) == CommittedPart(l, cap.key, cap.key.period, now);
    assert HeldPart(Next(c, l, Commit(id, actual), now), cap.key, now) == HeldPart(mid, cap.key, now);
  }

  lemma ReleaseKeepsCap(c: Config, l: Ledger, cap: Limit, id: Id, now: Now)
    requires Within(l, cap, now)
    ensures Within(Next(c, l, Release(id), now), cap, now)
  {
    var r := Next(c, l, Release(id), now);
    SumLeq(HeldPart(r, cap.key, now), HeldPart(l, cap.key, now));
    assert CommittedPart(r, cap.key, cap.key.period, now) == CommittedPart(l, cap.key, cap.key.period, now);
  }

  /** The settling discipline: reservations get fresh identifiers, and a commit settles a hold that is
      still live for no more than it holds. */
  predicate Disciplined(l: Ledger, op: Operation, now: Now) {
    match op
    case Reserve(_, _, id) => id !in l.holds
    case Commit(id, actual) => id in l.holds ==> l.holds[id].expiresAt > now.ticks && actual <= l.holds[id].amount
    case Release(_) => true
  }

  lemma {:induction false} StepKeepsCaps(c: Config, l: Ledger, op: Operation, was: Now, now: Now)
    requires WithinCaps(c, l, was) && NotBefore(was, now) && Disciplined(l, op, now)
    ensures WithinCaps(c, Next(c, l, op, now), now)
  {
    forall i | 0 <= i < |c.limits| && c.limits[i].max < U64_MAX
      ensures Within(Next(c, l, op, now), c.limits[i], now)
    {
      var cap := c.limits[i];
      ConsumedShrinks(l, cap, was, now);
      match op
      case Reserve(key, amount, id) => ReserveKeepsCap(c, l, cap, key, amount, id, now);
      case Commit(id, actual) =>
        if id in l.holds {
          CommitExactly(c, l, cap, id, actual, now);
        }
      case Release(id) => ReleaseKeepsCap(c, l, cap, id, now);
    }
  }

  // ---- Runs ----

  datatype Event = Event(op: Operation, now: Now)

  ghost function Run(c: Config, l: Ledger, es: seq<Event>): Ledger
    decreases |es|
  {
    if es == [] then l else Run(c, Next(c, l, es[0].op, es[0].now), es[1..])
  }

  /** Time does not go back, and every operation is disciplined when it happens. */
  ghost predicate DisciplinedRun(c: Config, l: Ledger, start: Now, es: seq<Event>)
    decreases |es|
  {
    es == [] ||
    (NotBefore(start, es[0].now) && Disciplined(l, es[0].op, es[0].now) &&
     DisciplinedRun(c, Next(c, l, es[0].op, es[0].now), es[0].now, es[1..]))
  }

  function EndOf(start: Now, es: seq<Event>): Now {
    if es == [] then start else es[|es| - 1].now
  }

  /** In every interleaving of reserve, commit, release and expiry, committed spend plus live holds
      stays within every cap, at the last operation and at any later time. */
  lemma {:induction false} CapsAlwaysHold(c: Config, l: Ledger, start: Now, es: seq<Event>, later: Now)
    requires WithinCaps(c, l, start) && DisciplinedRun(c, l, start, es) && NotBefore(EndOf(start, es), later)
    ensures WithinCaps(c, Run(c, l, es), later)
    decreases |es|
  {
    if es == [] {
      forall i | 0 <= i < |c.limits| && c.limits[i].max < U64_MAX ensures Within(l, c.limits[i], later) {
        ConsumedShrinks(l, c.limits[i], start, later);
      }
    } else {
      StepKeepsCaps(c, l, es[0].op, start, es[0].now);
      CapsAlwaysHold(c, Next(c, l, es[0].op, es[0].now), es[0].now, es[1..], later);
    }
  }

  lemma EmptyIsWithinCaps(c: Config, now: Now)
    ensures WithinCaps(c, Ledger(map[], map[]), now)
  {
    forall i | 0 <= i < |c.limits| ensures Within(Ledger(map[], map[]), c.limits[i], now) {
      assert CommittedPart(Ledger(map[], map[]), c.limits[i].key, c.limits[i].key.period, now).Keys == {};
      assert HeldPart(Ledger(map[], map[]), c.limits[i].key, now).Keys == {};
    }
  }

  /** In every disciplined run of a new ledger the caps hold. */
  lemma {:induction false} NewLedgerKeepsCaps(c: Config, start: Now, es: seq<Event>, later: Now)
    requires DisciplinedRun(c, Ledger(map[], map[]), start, es) && NotBefore(EndOf(start, es), later)
    ensures WithinCaps(c, Run(c, Ledger(map[], map[]), es), later)
  {
    EmptyIsWithinCaps(c, start);
    CapsAlwaysHold(c, Ledger(map[], map[]), start, es, later);
  }

  // ---- A reservation settles once ----

  predicate Settles(op: Operation, id: Id) {
    (op.Commit? || op.Release?) && op.id == id
  }

  lemma {:induction false} GoneForever(c: Config, l: Ledger, es: seq<Event>, id: Id)
    requires id !in l.holds && forall i :: 0 <= i < |es| ==> !(es[i].op.Reserve? && es[i].op.id == id)
    ensures id !in Run(c, l, es).holds
    decreases |es|
  {
    if es != [] {
      GoneForever(c, Next(c, l, es[0].op, es[0].now), es[1..], id);
    }
  }

  /** Once a reservation is committed or released, in every later state of a run that does not reserve under
      its identifier again, another commit or release of it is refused and changes nothing. */
  lemma {:induction false} SettledForever(c: Config, l: Ledger, first: Event, es: seq<Event>, again: Event, id: Id)
    requires Settles(first.op, id) && Settles(again.op, id)
    requires forall i :: 0 <= i < |es| ==> !(es[i].op.Reserve? && es[i].op.id == id)
    ensures var r := Run(c, Next(c, l, first.op, first.now), es);
            Answer(c, r, again.op, again.now) == UnknownReservation(id) && Next(c, r, again.op, again.now) == r
  {
    var r := Run(c, Next(c, l, first.op, first.now), es);
    GoneForever(c, Next(c, l, first.op, first.now), es, id);
    assert r.holds - {id} == r.holds;
  }

  // ---- When the caps hold, exactly ----

  /** What is committed fits, under every cap that covers the hold, in the room left once the hold's own
      share is given back. */
  ghost predicate FitsRoom(c: Config, l: Ledger, id: Id, actual: U64, now: Now)
    requires id in l.holds
  {
    forall i :: 0 <= i < |c.limits| && c.limits[i].max < U64_MAX && Covers(c.limits[i].key, l.holds[id].key) ==>
      actual <= c.limits[i].max - (Consumed(l, c.limits[i], now) - HoldShare(l.holds[id], c.limits[i], now))
  }

  /** Time does not go back and reservations get fresh identifiers. */
  ghost predicate InOrderRun(c: Config, l: Ledger, start: Now, es: seq<Event>)
    decreases |es|
  {
    es == [] ||
    (NotBefore(start, es[0].now) && (es[0].op.Reserve? ==> es[0].op.id !in l.holds) &&
     InOrderRun(c, Next(c, l, es[0].op, es[0].now), es[0].now, es[1..]))
  }

  ghost predicate CommitsFit(c: Config, l: Ledger, es: seq<Event>)
    decreases |es|
  {
    es == [] ||
    ((es[0].op.Commit? && es[0].op.id in l.holds ==> FitsRoom(c, l, es[0].op.id, es[0].op.actual, es[0].now)) &&
     CommitsFit(c, Next(c, l, es[0].op, es[0].now), es[1..]))
  }

  /** The caps hold after every operation. */
  ghost predicate CapsHoldThroughout(c: Config, l: Ledger, es: seq<Event>)
    decreases |es|
  {
    es == [] ||
    (WithinCaps(c, Next(c, l, es[0].op, es[0].now), es[0].now) &&
     CapsHoldThroughout(c, Next(c, l, es[0].op, es[0].now), es[1..]))
  }

  lemma CapsLater(c: Config, l: Ledger, was: Now, now: Now)
    requires WithinCaps(c, l, was) && NotBefore(was, now)
    ensures WithinCaps(c, l, now)
  {
    forall i | 0 <= i < |c.limits| && c.limits[i].max < U64_MAX ensures Within(l, c.limits[i], now) {
      ConsumedShrinks(l, c.limits[i], was, now);
    }
  }

  lemma {:induction false} CommitKeepsCapsExactly(c: Config, l: Ledger, id: Id, actual: U64, now: Now)
    requires WithinCaps(c, l, now) && id in l.holds
    ensures WithinCaps(c, Next(c, l, Commit(id, actual), now), now) <==> FitsRoom(c, l, id, actual, now)
  {
    forall i | 0 <= i < |c.limits| && c.limits[i].max < U64_MAX
      ensures Within(Next(c, l, Commit(id, actual), now), c.limits[i], now) <==>
              !Covers(c.limits[i].key, l.holds[id].key) ||
              actual <= c.limits[i].max - (Consumed(l, c.limits[i], now) - HoldShare(l.holds[id], c.limits[i], now))
    {
      CommitExactly(c, l, c.limits[i], id, actual, now);
    }
  }

  lemma NotBeforeItself(now: Now)
    ensures NotBefore(now, now)
  {
  }

  /** Over every run in which time does not go back and reservations get fresh identifiers, the caps hold
      after every operation exactly when every commit fits the room left. */
  lemma {:induction false} CapsHoldExactly(c: Config, l: Ledger, start: Now, es: seq<Event>)
    requires WithinCaps(c, l, start) && InOrderRun(c, l, start, es)
    ensures CapsHoldThroughout(c, l, es) <==> CommitsFit(c, l, es)
    decreases |es|
  {
    if es != [] {
      var op, now := es[0].op, es[0].now;
      var r := Next(c, l, op, now);
      CapsLater(c, l, start, now);
      if op.Commit? && op.id in l.holds {
        CommitKeepsCapsExactly(c, l, op.id, op.actual, now);
      } else {
        NotBeforeItself(now);
        StepKeepsCaps(c, l, op, now, now);
      }
      if WithinCaps(c, r, now) {
        CapsHoldExactly(c, r, now, es[1..]);
      }
    }
  }

  // ---- Spend is conserved ----

  /** What an operation settles for a scope. */
  function Paid(l: Ledger, scope: SpendKey, op: Operation): nat {
    match op
    case Commit(id, actual) => if id in l.holds && Covers(scope, l.holds[id].key) then actual else 0
    case _ => 0
  }

  /** What the commits of a run settle for a scope. */
  ghost function SettledFor(c: Config, l: Ledger, scope: SpendKey, es: seq<Event>): nat
    decreases |es|
  {
    if es == [] then 0 else
      Paid(l, scope, es[0].op) + SettledFor(c, Next(c, l, es[0].op, es[0].now), scope, es[1..])
  }

  lemma CommittedUnmoved(l: Ledger, r: Ledger, scope: SpendKey, a: Now, b: Now)
    requires l.committed == r.committed
    ensures Committed(l, scope, Lifetime, a) == Committed(r, scope, Lifetime, b)
  {
    assert CommittedPart(l, scope, Lifetime, a) == CommittedPart(r, scope, Lifetime, b);
  }

  lemma StepConserves(c: Config, l: Ledger, scope: SpendKey, e: Event, rest: nat)
    ensures Saturate(Committed(Next(c, l, e.op, e.now), scope, Lifetime, e.now) + rest) ==
            Saturate(Committed(l, scope, Lifetime, e.now) + Paid(l, scope, e.op) + rest)
  {
    var r := Next(c, l, e.op, e.now);
    if e.op.Commit? && e.op.id in l.holds {
      var h := l.holds[e.op.id];
      var mid := l.(holds := l.holds - {e.op.id});
      CommittedAfterRecord(mid, scope, Lifetime, e.now, BucketOf(h.key, e.now), e.op.actual);
      CommittedUnmoved(l, mid, scope, e.now, e.now);
      CommittedUnmoved(mid.(committed := r.committed), r, scope, e.now, e.now);
    } else {
      CommittedUnmoved(l, r, scope, e.now, e.now);
    }
  }

  lemma {:induction false} StepConservesAt(c: Config, l: Ledger, scope: SpendKey, e: Event, rest: nat, now: Now)
    ensures Saturate(Committed(Next(c, l, e.op, e.now), scope, Lifetime, now) + rest) ==
            Saturate(Committed(l, scope, Lifetime, now) + Paid(l, scope, e.op) + rest)
  {
    var r := Next(c, l, e.op, e.now);
    StepConserves(c, l, scope, e, rest);
    CommittedUnmoved(l, l, scope, now, e.now);
    CommittedUnmoved(r, r, scope, now, e.now);
  }

  lemma ConservesOnward(c: Config, l: Ledger, scope: SpendKey, e: Event, rest: seq<Event>, now: Now, end: Ledger)
    requires var r := Next(c, l, e.op, e.now);
             Saturate(Committed(end, scope, Lifetime, now)) ==
             Saturate(Committed(r, scope, Lifetime, now) + SettledFor(c, r, scope, rest))
    ensures Saturate(Committed(end, scope, Lifetime, now)) ==
            Saturate(Committed(l, scope, Lifetime, now) +
                     (Paid(l, scope, e.op) + SettledFor(c, Next(c, l, e.op, e.now), scope, rest)))
  {
    StepConservesAt(c, l, scope, e, SettledFor(c, Next(c, l, e.op, e.now), scope, rest), now);
  }

  /** Lifetime spend is what was committed, no less and no more, up to saturation: nothing is lost when
      a hold expires or a commit exceeds its hold, and a reservation settles once. */
  lemma {:induction false} SpendIsConserved(c: Config, l: Ledger, scope: SpendKey, es: seq<Event>, now: Now)
    ensures Saturate(Committed(Run(c, l, es), scope, Lifetime, now)) ==
            Saturate(Committed(l, scope, Lifetime, now) + SettledFor(c, l, scope, es))
    decreases |es|
  {
    if es == [] {
      assert Run(c, l, es) == l && SettledFor(c, l, scope, es) == 0;
    } else {
      SpendIsConserved(c, Next(c, l, es[0].op, es[0].now), scope, es[1..], now);
      ConservesOnward(c, l, scope, es[0], es[1..], now, Run(c, l, es));
    }
  }

  // ---- Where a cap does not hold ----

  /** A scope sees the share of the only hold there is. */
  lemma OneHold(l: Ledger, cap: Limit, now: Now, id: Id, h: Hold)
    requires l.holds == map[] && id !in l.holds
    ensures Held(l.(holds := l.holds[id := h]), cap.key, now) == HoldShare(h, cap, now)
  {
    assert HeldPart(l, cap.key, now).Keys == {};
    HeldAfterInsert(l, cap, now, id, h);
  }

  lemma NothingCommitted(l: Ledger, cap: Limit, now: Now)
    requires l.committed == map[]
    ensures Committed(l, cap.key, cap.key.period, now) == 0
  {
    assert CommittedPart(l, cap.key, cap.key.period, now).Keys == {};
  }

  /** A commit above its hold breaks the cap: one is reserved and two are committed under a cap of one. */
  lemma OverspendBreaksCap(key: SpendKey, now: Now)
    ensures var cap := Limit(key, 1);
            var c := Config([cap], 1, now.ticks + 1);
            !Within(Run(c, Ledger(map[], map[]), [Event(Reserve(key, 1, "a"), now), Event(Commit("a", 2), now)]), cap, now)
  {
    var cap := Limit(key, 1);
    var c := Config([cap], 1, now.ticks + 1);
    var l0 := Ledger(map[], map[]);
    var e1, e2 := Event(Reserve(key, 1, "a"), now), Event(Commit("a", 2), now);
    var h := Hold(key, 1, now.ticks + 1);
    var l1 := l0.(holds := l0.holds["a" := h]);
    NothingCommitted(l0, cap, now);
    NothingCommitted(l1, cap, now);
    assert HeldPart(l0, key, now).Keys == {};
    FirstRefusalExactly(l0, c.limits, key, 1, now);
    assert Next(c, l0, e1.op, now) == l1;
    OneHold(l0, cap, now, "a", h);
    CommitExactly(c, l1, cap, "a", 2, now);
    assert [e1, e2][1..] == [e2] && [e2][1..] == [];
    assert Run(c, l1, [e2]) == Next(c, l1, e2.op, now);
  }

  /** A new ledger with a cap of one grants one. */
  lemma {:induction false} FirstReserve(key: SpendKey, now: Now, c: Config)
    requires c.limits == [Limit(key, 1)]
    ensures FirstRefusal(Ledger(map[], map[]), c.limits, key, 1, now).None?
  {
    var l0 := Ledger(map[], map[]);
    NothingCommitted(l0, c.limits[0], now);
    assert HeldPart(l0, key, now).Keys == {};
    FirstRefusalExactly(l0, c.limits, key, 1, now);
  }

  /** So does a commit of an expired hold for no more than it held: its room was given to another. */
  lemma {:induction false} LateCommitBreaksCap(key: SpendKey, now: Now)
    ensures var cap := Limit(key, 1);
            var c := Config([cap], 1, now.ticks + 2);
            var later := now.(ticks := now.ticks + 1);
            !Within(Run(c, Ledger(map[], map[]),
                        [Event(Reserve(key, 1, "a"), now), Event(Reserve(key, 1, "b"), later), Event(Commit("a", 1), later)]),
                    cap, later)
  {
    var cap := Limit(key, 1);
    var c := Config([cap], 1, now.ticks + 2);
    var later := now.(ticks := now.ticks + 1);
    var l0 := Ledger(map[], map[]);
    var e1, e2, e3 := Event(Reserve(key, 1, "a"), now), Event(Reserve(key, 1, "b"), later), Event(Commit("a", 1), later);
    var h, g := Hold(key, 1, now.ticks + 1), Hold(key, 1, now.ticks + 2);
    var l1 := l0.(holds := l0.holds["a" := h]);
    var l2 := l1.(holds := l1.holds["b" := g]);
    FirstReserve(key, now, c);
    assert Next(c, l0, e1.op, now) == l1;
    NothingCommitted(l1, cap, later);
    OneHold(l0, cap, later, "a", h);
    FirstRefusalExactly(l1, c.limits, key, 1, later);
    assert Next(c, l1, e2.op, later) == l2;
    NothingCommitted(l2, cap, later);
    HeldAfterInsert(l1, cap, later, "b", g);
    CommitExactly(c, l2, cap, "a", 1, later);
    assert [e1, e2, e3][1..] == [e2, e3] && [e2, e3][1..] == [e3] && [e3][1..] == [];
    assert Run(c, l2, [e3]) == Next(c, l2, e3.op, later);
    assert Run(c, l1, [e2, e3]) == Run(c, l2, [e3]);
  }

  /** A cap of the largest storable amount is never enforced: two reservations exceed it. */
  lemma {:induction false} LargestCapIsNone(key: SpendKey, now: Now)
    ensures var c := Config([Limit(key, U64_MAX)], 1, now.ticks + 1);
            var l := Run(c, Ledger(map[], map[]),
                         [Event(Reserve(key, U64_MAX, "a"), now), Event(Reserve(key, U64_MAX, "b"), now)]);
            !Within(l, c.limits[0], now)
  {
    var cap := Limit(key, U64_MAX);
    var c := Config([cap], 1, now.ticks + 1);
    var l0 := Ledger(map[], map[]);
    var e1, e2 := Event(Reserve(key, U64_MAX, "a"), now), Event(Reserve(key, U64_MAX, "b"), now);
    FirstRefusalExactly(l0, c.limits, key, U64_MAX, now);
    var h := Hold(key, U64_MAX, now.ticks + 1);
    var l1 := l0.(holds := map["a" := h]);
    assert Next(c, l0, e1.op, now) == l1;
    FirstRefusalExactly(l1, c.limits, key, U64_MAX, now);
    HeldAfterInsert(l0, cap, now, "a", h);
    HeldAfterInsert(l1, cap, now, "b", h);
    assert [e1, e2][1..] == [e2] && [e2][1..] == [];
    assert Next(c, l1, e2.op, now) == l1.(holds := l1.holds["b" := h]);
    assert Run(c, l1, [e2]) == l1.(holds := l1.holds["b" := h]);
    assert Run(c, l0, [e1, e2]) == l1.(holds := l1.holds["b" := h]);
  }
}
