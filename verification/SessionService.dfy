/** The in-memory session service (adk-session/src/inmemory.rs): sessions, the shared app and user
    tiers, and rewind. */
module SessionService {
  import opened SessionState
  import opened Wrappers

  // ---- Identities (adk-core/src/identity.rs) ----

  const MAX_ID_LEN := 512

  /** The bytes a string takes in UTF-8. */
  function Utf8Length(s: string): nat {
    if s == "" then 0 else
      (if s[0] < '\U{0080}' then 1 else if s[0] < '\U{0800}' then 2 else if s[0] < '\U{10000}' then 3 else 4)
      + Utf8Length(s[1..])
  }

  predicate ValidName(s: string) {
    s != "" && Utf8Length(s) <= MAX_ID_LEN && '\0' !in s
  }

  datatype Identity = Identity(app: string, user: string, session: string)

  predicate ValidIdentity(i: Identity) {
    ValidName(i.app) && ValidName(i.user) && ValidName(i.session)
  }

  // ---- The store ----

  datatype UserKey = UserKey(app: string, user: string)

  datatype Session = Session(events: seq<Event>, state: StateMap, initial: StateMap, updatedAt: int)

  datatype Store = Store(sessions: map<Identity, Session>, app: map<string, StateMap>, user: map<UserKey, StateMap>)

  function Tier<K>(m: map<K, StateMap>, k: K): StateMap {
    if k in m then m[k] else map[]
  }

  /** `entry(k).or_default().extend(delta)` */
  function Extended<K>(m: map<K, StateMap>, k: K, delta: StateMap): map<K, StateMap> {
    m[k := Tier(m, k) + delta]
  }

  /** A tier that a delta does not write is left alone. */
  function Written<K>(m: map<K, StateMap>, k: K, delta: StateMap): map<K, StateMap> {
    if delta == map[] then m else Extended(m, k, delta)
  }

  /** A session as a caller gets it: its state is its own tier merged with the app and user tiers. */
  datatype SessionView = SessionView(id: Identity, tiers: Tiers, events: seq<Event>, updatedAt: int) {
    function State(): StateMap {
      Merge(tiers)
    }
  }

  /** A session's own tier with the current app and user tiers. */
  function TiersOf(s: Store, i: Identity): Tiers
    requires i in s.sessions
  {
    Tiers(Tier(s.app, i.app), Tier(s.user, UserKey(i.app, i.user)), s.sessions[i].state)
  }

  /** The session as callers see it now. */
  function Seen(s: Store, i: Identity): SessionView
    requires i in s.sessions
  {
    SessionView(i, TiersOf(s, i), s.sessions[i].events, s.sessions[i].updatedAt)
  }

  /** The session's state as callers see it. */
  function ViewOf(s: Store, i: Identity): StateMap
    requires i in s.sessions
  {
    Seen(s, i).State()
  }

  // ---- The operations ----

  datatype Operation =
    | Create(id: Identity, state: StateMap)
    | Append(id: Identity, event: Event)
    | AppendById(session: string, event: Event)
    | Rewind(id: Identity, eventId: string)
    | RewindSteps(id: Identity, steps: nat)
    | Delete(id: Identity)
    | DeleteAll(app: string, user: string)

  datatype Reply =
    | Done
    | Opened(view: SessionView)
    | InvalidIdentity
    | AlreadyExists
    | SessionNotFound
    | Ambiguous
    | EventNotFound
    | TooManySteps

  function Created(s: Store, i: Identity, t: Tiers, now: int): Store {
    Store(s.sessions[i := Session([], t.session, t.session, now)],
          Extended(s.app, i.app, t.app),
          Extended(s.user, UserKey(i.app, i.user), t.user))
  }

  function Kept(e: Event): Event {
    e.(delta := WithoutTemp(e.delta))
  }

  /** A session with one more event and its session tier extended. */
  function Grown(d: Session, kept: Event, delta: StateMap): Session {
    Session(d.events + [kept], d.state + delta, d.initial, kept.timestamp)
  }

  /** An event without its temporary keys, appended to a session and its delta to the tiers. */
  function WithEvent(s: Store, i: Identity, kept: Event, t: Tiers): Store
    requires i in s.sessions
  {
    Store(s.sessions[i := Grown(s.sessions[i], kept, t.session)],
          Written(s.app, i.app, t.app),
          Written(s.user, UserKey(i.app, i.user), t.user))
  }

  function Appended(s: Store, i: Identity, e: Event): Store
    requires i in s.sessions
  {
    WithEvent(s, i, Kept(e), Extract(Kept(e).delta))
  }

  /** Keeps the first events and rebuilds the session tier from its creation and their deltas. */
  function Truncated(s: Store, i: Identity, keep: nat, now: int): Store
    requires i in s.sessions && keep <= |s.sessions[i].events|
  {
    var d := s.sessions[i];
    s.(sessions := s.sessions[i := d.(events := d.events[..keep], state := Rebuilt(d.initial, d.events[..keep]), updatedAt := now)])
  }

  function Position(events: seq<Event>, id: string): (p: Option<nat>)
    ensures p.None? ==> forall k :: 0 <= k < |events| ==> events[k].id != id
    ensures p.Some? ==> p.value < |events| && events[p.value].id == id && forall k :: 0 <= k < p.value ==> events[k].id != id
  {
    if events == [] then None
    else if events[0].id == id then Some(0)
    else
      var p := Position(events[1..], id);
      if p.None? then None else Some(p.value + 1)
  }

  /** How many events a rewind keeps, or why it is refused. */
  function Keep(events: seq<Event>, op: Operation): Option<nat> {
    match op
    case Rewind(_, id) =>
      var p := Position(events, id);
      if p.None? then None else Some(p.value + 1)
    case RewindSteps(_, steps) => if steps <= |events| then Some(|events| - steps) else None
    case _ => Some(|events|)
  }

  function Owners(s: Store, session: string): set<Identity> {
    set i | i in s.sessions && i.session == session
  }

  predicate IsRewind(op: Operation) {
    op.Rewind? || op.RewindSteps?
  }

  /** Appends to the one session with this id, if there is exactly one. */
  ghost function AppendedById(s: Store, session: string, e: Event): Store {
    if i :| Owners(s, session) == {i} then
      assert i in Owners(s, session);
      Appended(s, i, e)
    else s
  }

  function WithoutScope(s: Store, app: string, user: string): Store {
    s.(sessions := map i | i in s.sessions && !(i.app == app && i.user == user) :: s.sessions[i])
  }

  function Rewound(s: Store, i: Identity, op: Operation, now: int): Store
    requires IsRewind(op)
  {
    if i !in s.sessions then s else
      var keep := Keep(s.sessions[i].events, op);
      if keep.None? then s else Truncated(s, i, keep.value, now)
  }

  ghost function Next(s: Store, op: Operation, now: int): Store {
    match op
    case Create(i, state) =>
      if !ValidIdentity(i) || i in s.sessions then s else Created(s, i, Extract(state), now)
    case Append(i, e) => if i in s.sessions then Appended(s, i, e) else s
    case AppendById(session, e) => if ValidName(session) then AppendedById(s, session, e) else s
    case Rewind(i, _) => Rewound(s, i, op, now)
    case RewindSteps(i, steps) => if steps == 0 then s else Rewound(s, i, op, now)
    case Delete(i) => if ValidIdentity(i) then s.(sessions := s.sessions - {i}) else s
    case DeleteAll(app, user) => if ValidName(app) && ValidName(user) then WithoutScope(s, app, user) else s
  }

  // ---- The service ----

  lemma TwoOwners(owners: set<Identity>, i: Identity)
    requires i in owners && owners != {i}
    ensures |owners| > 1
    ensures forall j :: owners != {j}
  {
    var rest := owners - {i};
    assert rest != {};
    assert owners == rest + {i};
    var j :| j in rest;
    assert forall k :: owners == {k} ==> i in {k} && j in {k};
  }

  class InMemorySessionService {
    var sessions: map<Identity, Session>
    var app: map<string, StateMap>
    var user: map<UserKey, StateMap>

    constructor ()
      ensures View() == Store(map[], map[], map[])
    {
      sessions, app, user := map[], map[], map[];
    }

    function View(): Store
      reads this
    {
      Store(sessions, app, user)
    }

    method CreateSession(i: Identity, state: StateMap, now: int) returns (r: Reply)
      modifies this
      ensures View() == Next(old(View()), Create(i, state), now)
      ensures r.InvalidIdentity? <==> !ValidIdentity(i)
      ensures r.AlreadyExists? <==> ValidIdentity(i) && i in old(sessions)
      ensures ValidIdentity(i) && i !in old(sessions) ==> i in sessions && r == Opened(Seen(View(), i))
    {
      if !ValidIdentity(i) {
        return InvalidIdentity;
      }
      if i in sessions {
        return AlreadyExists;
      }
      PutSession(i, Extract(state), now);
      r := Opened(Seen(View(), i));
    }

    method PutSession(i: Identity, t: Tiers, now: int)
      modifies this
      ensures View() == Created(old(View()), i, t, now)
    {
      ExtendTiers(i, t.app, t.user);
      sessions := sessions[i := Session([], t.session, t.session, now)];
    }

    method ExtendTiers(i: Identity, appDelta: StateMap, userDelta: StateMap)
      modifies this`app, this`user
      ensures app == Extended(old(app), i.app, appDelta)
      ensures user == Extended(old(user), UserKey(i.app, i.user), userDelta)
    {
      app := Extended(app, i.app, appDelta);
      user := Extended(user, UserKey(i.app, i.user), userDelta);
    }

    method ExtendWrittenTiers(i: Identity, appDelta: StateMap, userDelta: StateMap)
      modifies this`app, this`user
      ensures app == Written(old(app), i.app, appDelta)
      ensures user == Written(old(user), UserKey(i.app, i.user), userDelta)
    {
      if appDelta != map[] {
        app := Extended(app, i.app, appDelta);
      }
      if userDelta != map[] {
        user := Extended(user, UserKey(i.app, i.user), userDelta);
      }
    }

    method AppendTo(i: Identity, event: Event, now: int) returns (r: Reply)
      modifies this
      ensures View() == Next(old(View()), Append(i, event), now)
      ensures r == if i in old(sessions) then Done else SessionNotFound
    {
      if i !in sessions {
        return SessionNotFound;
      }
      var kept := Kept(event);
      PutEvent(i, kept, Extract(kept.delta));
      r := Done;
    }

    method PutEvent(i: Identity, kept: Event, t: Tiers)
      requires i in sessions
      modifies this
      ensures View() == WithEvent(old(View()), i, kept, t)
    {
      KeepEvent(i, kept, t.session);
      ExtendWrittenTiers(i, t.app, t.user);
    }

    method KeepEvent(i: Identity, kept: Event, delta: StateMap)
      requires i in sessions
      modifies this`sessions
      ensures sessions == old(sessions)[i := Grown(old(sessions[i]), kept, delta)]
    {
      var data := sessions[i];
      data := data.(updatedAt := kept.timestamp, state := data.state + delta);
      data := data.(events := data.events + [kept]);
      sessions := sessions[i := data];
    }

    /** Appends to the one session with this id, whoever owns it. */
    method AppendEvent(session: string, event: Event, now: int) returns (r: Reply)
      modifies this
      ensures View() == Next(old(View()), AppendById(session, event), now)
      ensures r == InvalidIdentity <==> !ValidName(session)
      ensures r == Done <==> ValidName(session) && |Owners(old(View()), session)| == 1
      ensures r == SessionNotFound <==> ValidName(session) && Owners(old(View()), session) == {}
      ensures r in {InvalidIdentity, Done, SessionNotFound, Ambiguous}
    {
      if !ValidName(session) {
        return InvalidIdentity;
      }
      var owners := Owners(View(), session);
      if owners == {} {
        return SessionNotFound;
      }
      var i :| i in owners;
      if owners != {i} {
        TwoOwners(owners, i);
        return Ambiguous;
      }
      assert forall j :: owners == {j} ==> j in {i};
      r := AppendTo(i, event, now);
    }

    /** Keeps the first `keep` events of a session. */
    method Truncate(i: Identity, keep: nat, now: int) returns (r: Reply)
      requires i in sessions && keep <= |sessions[i].events|
      modifies this`sessions
      ensures View() == Truncated(old(View()), i, keep, now)
      ensures sessions.Keys == old(sessions).Keys && r == Opened(Seen(View(), i))
    {
      var data := sessions[i];
      data := data.(events := data.events[..keep]);
      var state := RebuildSessionState(data.initial, data.events);
      sessions := sessions[i := data.(state := state, updatedAt := now)];
      r := Opened(Seen(View(), i));
    }

    method RewindTo(i: Identity, eventId: string, now: int) returns (r: Reply)
      modifies this`sessions
      ensures View() == Next(old(View()), Rewind(i, eventId), now)
      ensures sessions.Keys == old(sessions).Keys
      ensures r == if i !in sessions then SessionNotFound
                   else if Position(old(sessions)[i].events, eventId).None? then EventNotFound
                   else Opened(Seen(View(), i))
    {
      if i !in sessions {
        return SessionNotFound;
      }
      var position := Position(sessions[i].events, eventId);
      if position.None? {
        return EventNotFound;
      }
      r := Truncate(i, position.value + 1, now);
    }

    method RewindBy(i: Identity, steps: nat, now: int) returns (r: Reply)
      modifies this`sessions
      ensures View() == Next(old(View()), RewindSteps(i, steps), now)
      ensures sessions.Keys == old(sessions).Keys
      ensures r == if i !in sessions then SessionNotFound
                   else if steps > |old(sessions)[i].events| then TooManySteps
                   else Opened(Seen(View(), i))
    {
      if i !in sessions {
        return SessionNotFound;
      }
      if steps == 0 {
        return Opened(Seen(View(), i));
      }
      if steps > |sessions[i].events| {
        return TooManySteps;
      }
      r := Truncate(i, |sessions[i].events| - steps, now);
    }

    method DeleteSession(i: Identity, now: int) returns (r: Reply)
      modifies this`sessions
      ensures View() == Next(old(View()), Delete(i), now)
      ensures r == if ValidIdentity(i) then Done else InvalidIdentity
    {
      if !ValidIdentity(i) {
        return InvalidIdentity;
      }
      sessions := sessions - {i};
      r := Done;
    }

    method DeleteAllSessions(appName: string, userId: string, now: int) returns (r: Reply)
      modifies this`sessions
      ensures View() == Next(old(View()), DeleteAll(appName, userId), now)
      ensures r == if ValidName(appName) && ValidName(userId) then Done else InvalidIdentity
    {
      if !ValidName(appName) || !ValidName(userId) {
        return InvalidIdentity;
      }
      r := Done;
      sessions := map i | i in sessions && !(i.app == appName && i.user == userId) :: sessions[i];
    }
  }

  // ---- State is the creation state folded with the remaining events ----

  predicate ConsistentSession(d: Session) {
    && d.state == Rebuilt(d.initial, d.events)
    && SessionPart(d.initial) == d.initial
    && forall k :: 0 <= k < |d.events| ==> d.events[k].delta == WithoutTemp(d.events[k].delta)
  }

  predicate Consistent(s: Store) {
    forall i :: i in s.sessions ==> ConsistentSession(s.sessions[i])
  }

  lemma AppendConsistent(d: Session, e: Event)
    requires ConsistentSession(d)
    ensures ConsistentSession(d.(events := d.events + [Kept(e)], state := d.state + SessionPart(Kept(e).delta), updatedAt := e.timestamp))
  {
    FoldedAppend(SessionPart(d.initial), d.events, [Kept(e)]);
    assert [Kept(e)][1..] == [];
    assert WithoutTemp(Kept(e).delta) == Kept(e).delta;
  }

  lemma KeptConsistent(s: Store, u: Store)
    requires Consistent(s) && forall i :: i in u.sessions ==> i in s.sessions && u.sessions[i] == s.sessions[i]
    ensures Consistent(u)
  {
  }

  lemma {:induction false} AppendedConsistent(s: Store, i: Identity, e: Event)
    requires Consistent(s) && i in s.sessions
    ensures Consistent(Appended(s, i, e))
  {
    AppendConsistent(s.sessions[i], e);
    var u := Appended(s, i, e);
    forall j | j in u.sessions ensures ConsistentSession(u.sessions[j]) {
      assert j != i ==> ConsistentSession(s.sessions[j]);
    }
  }

  lemma {:induction false} OneOwner(s: Store, session: string, e: Event, i: Identity)
    requires Owners(s, session) == {i}
    ensures i in s.sessions
    ensures AppendedById(s, session, e) == Appended(s, i, e)
  {
    assert i in Owners(s, session);
    forall j | Owners(s, session) == {j} ensures j == i {
      assert j in {i};
    }
  }

  lemma AppendedByIdConsistent(s: Store, session: string, e: Event)
    requires Consistent(s)
    ensures Consistent(AppendedById(s, session, e))
  {
    if i :| Owners(s, session) == {i} {
      OneOwner(s, session, e, i);
      AppendedConsistent(s, i, e);
    }
  }

  lemma NewConsistent(state: StateMap, now: int)
    requires SessionPart(state) == state
    ensures ConsistentSession(Session([], state, state, now))
  {
  }

  lemma CreatedConsistent(s: Store, i: Identity, state: StateMap, now: int)
    requires Consistent(s)
    ensures Consistent(Created(s, i, Extract(state), now))
  {
    SessionPartIdempotent(state);
    NewConsistent(SessionPart(state), now);
    var u := Created(s, i, Extract(state), now);
    forall j | j in u.sessions ensures ConsistentSession(u.sessions[j]) {
      assert j != i ==> ConsistentSession(s.sessions[j]);
    }
  }

  lemma RewoundConsistent(s: Store, i: Identity, op: Operation, now: int)
    requires Consistent(s) && IsRewind(op)
    ensures Consistent(Rewound(s, i, op, now))
  {
    var u := Rewound(s, i, op, now);
    forall j | j in u.sessions ensures ConsistentSession(u.sessions[j]) {
      assert ConsistentSession(s.sessions[j]);
    }
  }

  lemma {:induction false} NextConsistent(s: Store, op: Operation, now: int)
    requires Consistent(s)
    ensures Consistent(Next(s, op, now))
  {
    match op
    case Create(i, state) => CreatedConsistent(s, i, state, now);
    case Append(i, e) =>
      if i in s.sessions {
        AppendedConsistent(s, i, e);
      }
    case AppendById(session, e) =>
      AppendedByIdConsistent(s, session, e);
    case Rewind(i, _) => RewoundConsistent(s, i, op, now);
    case RewindSteps(i, _) => RewoundConsistent(s, i, op, now);
    case Delete(i) => KeptConsistent(s, Next(s, op, now));
    case DeleteAll(app, user) => KeptConsistent(s, Next(s, op, now));
  }

  /** An operation and the clock's reading when it happens. */
  datatype Timed = Timed(op: Operation, now: int)

  ghost function Run(s: Store, es: seq<Timed>): Store
    decreases |es|
  {
    if es == [] then s else Run(Next(s, es[0].op, es[0].now), es[1..])
  }

  lemma {:induction false} RunConsistent(s: Store, es: seq<Timed>)
    requires Consistent(s)
    ensures Consistent(Run(s, es))
    decreases |es|
  {
    if es != [] {
      NextConsistent(s, es[0].op, es[0].now);
      RunConsistent(Next(s, es[0].op, es[0].now), es[1..]);
    }
  }

  predicate DeletesSession(op: Operation, i: Identity) {
    match op
    case Delete(j) => j == i
    case DeleteAll(app, user) => app == i.app && user == i.user
    case _ => false
  }

  /** What a step can make of a session it does not delete: the state it was created with stays, and its
      events stay, gain one or lose the last ones. */
  ghost predicate SessionStep(d: Session, u: Session) {
    && u.initial == d.initial
    && (u.events <= d.events || (d.events <= u.events && |u.events| == |d.events| + 1))
  }

  lemma CreatedKeepsSession(s: Store, j: Identity, t: Tiers, now: int, i: Identity)
    requires i in s.sessions && j !in s.sessions
    ensures i in Created(s, j, t, now).sessions && Created(s, j, t, now).sessions[i] == s.sessions[i]
  {
  }

  lemma AppendKeepsSession(s: Store, j: Identity, e: Event, i: Identity)
    requires i in s.sessions && j in s.sessions
    ensures i in Appended(s, j, e).sessions && SessionStep(s.sessions[i], Appended(s, j, e).sessions[i])
  {
    if j == i {
      assert Appended(s, j, e).sessions[i].events == s.sessions[i].events + [Kept(e)];
    }
  }

  lemma RewoundKeepsSession(s: Store, j: Identity, op: Operation, now: int, i: Identity)
    requires i in s.sessions && IsRewind(op)
    ensures i in Rewound(s, j, op, now).sessions && SessionStep(s.sessions[i], Rewound(s, j, op, now).sessions[i])
  {
  }

  lemma AppendByIdKeepsSession(s: Store, session: string, e: Event, i: Identity)
    requires i in s.sessions
    ensures i in AppendedById(s, session, e).sessions
    ensures SessionStep(s.sessions[i], AppendedById(s, session, e).sessions[i])
  {
    if j :| Owners(s, session) == {j} {
      OneOwner(s, session, e, j);
      AppendKeepsSession(s, j, e, i);
    }
  }

  lemma NextKeepsSession(s: Store, op: Operation, now: int, i: Identity)
    requires i in s.sessions && !DeletesSession(op, i)
    ensures i in Next(s, op, now).sessions && SessionStep(s.sessions[i], Next(s, op, now).sessions[i])
  {
    match op
    case Append(j, e) =>
      if j in s.sessions {
        AppendKeepsSession(s, j, e, i);
      }
    case AppendById(session, e) => AppendByIdKeepsSession(s, session, e, i);
    case Create(j, state) =>
      if j !in s.sessions {
        CreatedKeepsSession(s, j, Extract(state), now, i);
      }
    case Rewind(j, _) => RewoundKeepsSession(s, j, op, now, i);
    case RewindSteps(j, _) => RewoundKeepsSession(s, j, op, now, i);
    case Delete(j) =>
    case DeleteAll(app, user) =>
  }

  /** The state a session was created with stays for as long as the session does. */
  lemma {:induction false} InitialStays(s: Store, es: seq<Timed>, i: Identity)
    requires i in s.sessions && forall k :: 0 <= k < |es| ==> !DeletesSession(es[k].op, i)
    ensures i in Run(s, es).sessions && Run(s, es).sessions[i].initial == s.sessions[i].initial
    decreases |es|
  {
    if es != [] {
      NextKeepsSession(s, es[0].op, es[0].now, i);
      InitialStays(Next(s, es[0].op, es[0].now), es[1..], i);
    }
  }

  /** From its creation on, after any operations that do not delete it, a session's state is the state it
      was created with folded with the deltas of its remaining events. */
  lemma {:induction false} StateIsFoldOfEvents(s: Store, i: Identity, state: StateMap, now: int, es: seq<Timed>)
    requires Consistent(s) && ValidIdentity(i) && i !in s.sessions
    requires forall k :: 0 <= k < |es| ==> !DeletesSession(es[k].op, i)
    ensures var r := Run(Next(s, Create(i, state), now), es);
            i in r.sessions && r.sessions[i].state == Rebuilt(state, r.sessions[i].events)
  {
    var u := Next(s, Create(i, state), now);
    NextConsistent(s, Create(i, state), now);
    RunConsistent(u, es);
    InitialStays(u, es, i);
    SessionPartIdempotent(state);
    assert ConsistentSession(Run(u, es).sessions[i]);
  }

  // ---- Rewind undoes appends ----

  function AppendAll(s: Store, i: Identity, es: seq<Event>): Store
    requires i in s.sessions
    decreases |es|
  {
    if es == [] then s else AppendAll(Appended(s, i, es[0]), i, es[1..])
  }

  lemma {:induction false} AppendAllIs(s: Store, i: Identity, es: seq<Event>)
    requires i in s.sessions
    ensures var d, r := s.sessions[i], AppendAll(s, i, es);
            && i in r.sessions && r.sessions.Keys == s.sessions.Keys
            && r.sessions[i].initial == d.initial
            && |r.sessions[i].events| == |d.events| + |es|
            && r.sessions[i].events[..|d.events|] == d.events
            && (forall j :: j in s.sessions && j != i ==> r.sessions[j] == s.sessions[j])
    decreases |es|
  {
    if es != [] {
      var m := Appended(s, i, es[0]);
      AppendAllIs(m, i, es[1..]);
      var r, d := AppendAll(s, i, es), s.sessions[i];
      assert r.sessions[i].events[..|d.events| + 1] == d.events + [Kept(es[0])];
      assert r.sessions[i].events[..|d.events|] == r.sessions[i].events[..|d.events| + 1][..|d.events|];
    }
  }

  lemma TruncatedBack(s: Store, i: Identity, d: Session, now: int)
    requires i in s.sessions && ConsistentSession(d) && s.sessions[i].initial == d.initial
    requires |d.events| <= |s.sessions[i].events| && s.sessions[i].events[..|d.events|] == d.events
    ensures Truncated(s, i, |d.events|, now) == s.(sessions := s.sessions[i := d.(updatedAt := now)])
  {
  }

  lemma RewindBack(s: Store, grown: Store, i: Identity, steps: nat, now: int)
    requires i in s.sessions && i in grown.sessions && steps > 0
    requires var d, g := s.sessions[i], grown.sessions[i];
             && ConsistentSession(d) && g.initial == d.initial
             && |g.events| == |d.events| + steps && g.events[..|d.events|] == d.events
    requires grown.sessions.Keys == s.sessions.Keys && forall j :: j in s.sessions && j != i ==> grown.sessions[j] == s.sessions[j]
    ensures var r := Next(grown, RewindSteps(i, steps), now);
            && r.sessions == s.sessions[i := s.sessions[i].(updatedAt := now)]
            && r.app == grown.app && r.user == grown.user
  {
    var d := s.sessions[i];
    TruncatedBack(grown, i, d, now);
    assert Next(grown, RewindSteps(i, steps), now) == Truncated(grown, i, |d.events|, now);
    assert grown.sessions[i := d.(updatedAt := now)] == s.sessions[i := d.(updatedAt := now)];
  }

  /** Rewinding by as many steps as events were appended gives the session back as it was, with every
      other session, and leaves the app and user tiers as the appended events made them. */
  lemma {:induction false} RewindUndoesAppends(s: Store, i: Identity, es: seq<Event>, now: int)
    requires Consistent(s) && i in s.sessions && es != []
    ensures var grown := AppendAll(s, i, es);
            var r := Next(grown, RewindSteps(i, |es|), now);
            && r.sessions == s.sessions[i := s.sessions[i].(updatedAt := now)]
            && r.app == grown.app && r.user == grown.user
  {
    AppendAllIs(s, i, es);
    RewindBack(s, AppendAll(s, i, es), i, |es|, now);
  }

  /** Rewinding to an event is rewinding by the number of events after it. */
  lemma {:induction false} RewindToIsRewindBy(s: Store, i: Identity, eventId: string, now: int)
    requires i in s.sessions && Position(s.sessions[i].events, eventId).Some?
    ensures var events := s.sessions[i].events;
            var after := |events| - Position(events, eventId).value - 1;
            after > 0 ==> Next(s, Rewind(i, eventId), now) == Next(s, RewindSteps(i, after), now)
  {
  }

  lemma {:induction false} PositionInLonger(events: seq<Event>, longer: seq<Event>, id: string)
    requires |events| <= |longer| && longer[..|events|] == events && Position(events, id).Some?
    ensures Position(longer, id) == Position(events, id)
  {
    var p, q := Position(events, id), Position(longer, id);
    assert longer[p.value] == events[p.value];
    assert q.Some?;
    assert q.value < |events| ==> longer[q.value] == events[q.value];
  }

  lemma {:induction false} RewoundLength(s: Store, i: Identity, eventId: string, now: int)
    requires i in s.sessions && Position(s.sessions[i].events, eventId).Some?
    ensures var r := Next(s, Rewind(i, eventId), now);
            i in r.sessions && |r.sessions[i].events| == Position(s.sessions[i].events, eventId).value + 1
  {
  }

  lemma {:induction false} RewindToBack(s: Store, grown: Store, i: Identity, eventId: string, now: int)
    requires i in s.sessions && i in grown.sessions
    requires var d, g := s.sessions[i], grown.sessions[i];
             && ConsistentSession(d) && g.initial == d.initial
             && |g.events| > |d.events| && g.events[..|d.events|] == d.events
             && Position(d.events, eventId) == Some(|d.events| - 1)
    requires grown.sessions.Keys == s.sessions.Keys && forall j :: j in s.sessions && j != i ==> grown.sessions[j] == s.sessions[j]
    ensures Next(grown, Rewind(i, eventId), now).sessions == s.sessions[i := s.sessions[i].(updatedAt := now)]
  {
    PositionInLonger(s.sessions[i].events, grown.sessions[i].events, eventId);
    RewindToIsRewindBy(grown, i, eventId, now);
    RewindBack(s, grown, i, |grown.sessions[i].events| - |s.sessions[i].events|, now);
  }

  lemma {:induction false} RewindToRestores(s: Store, i: Identity, es: seq<Event>, eventId: string, now: int)
    requires Consistent(s) && i in s.sessions && es != []
    requires Position(s.sessions[i].events, eventId) == Some(|s.sessions[i].events| - 1)
    ensures Next(AppendAll(s, i, es), Rewind(i, eventId), now).sessions ==
            s.sessions[i := s.sessions[i].(updatedAt := now)]
  {
    AppendAllIs(s, i, es);
    RewindToBack(s, AppendAll(s, i, es), i, eventId, now);
  }

  /** The last event is the first with its id. */
  lemma {:induction false} LastIsFirst(events: seq<Event>)
    requires events != []
    ensures var last := events[|events| - 1].id;
            Position(events, last) == Some(|events| - 1) <==> forall k :: 0 <= k < |events| - 1 ==> events[k].id != last
    ensures Position(events, events[|events| - 1].id).Some?
  {
    var last := events[|events| - 1].id;
    assert Position(events, last).Some?;
  }

  lemma {:induction false} RewindToShortens(s: Store, i: Identity, es: seq<Event>, eventId: string, now: int)
    requires i in s.sessions && Position(s.sessions[i].events, eventId).Some?
    requires Position(s.sessions[i].events, eventId).value < |s.sessions[i].events| - 1
    ensures var r := Next(AppendAll(s, i, es), Rewind(i, eventId), now);
            i in r.sessions && |r.sessions[i].events| < |s.sessions[i].events|
  {
    var grown := AppendAll(s, i, es);
    AppendAllIs(s, i, es);
    PositionInLonger(s.sessions[i].events, grown.sessions[i].events, eventId);
    RewoundLength(grown, i, eventId, now);
  }

  /** Rewinding to the event that was last before some appends undoes them exactly when no earlier event
      has its id. */
  lemma {:induction false} RewindToUndoesAppends(s: Store, i: Identity, es: seq<Event>, now: int)
    requires Consistent(s) && i in s.sessions && es != [] && s.sessions[i].events != []
    ensures var events := s.sessions[i].events;
            var last := events[|events| - 1].id;
            Next(AppendAll(s, i, es), Rewind(i, last), now).sessions == s.sessions[i := s.sessions[i].(updatedAt := now)]
            <==> forall k :: 0 <= k < |events| - 1 ==> events[k].id != last
  {
    var events := s.sessions[i].events;
    var last := events[|events| - 1].id;
    LastIsFirst(events);
    if Position(events, last) == Some(|events| - 1) {
      RewindToRestores(s, i, es, last, now);
    } else {
      RewindToShortens(s, i, es, last, now);
    }
  }

  // ---- Rewind leaves the shared tiers alone ----

  /** The same sessions exist and the shared tiers are the same. */
  predicate SameShared(s: Store, t: Store) {
    s.sessions.Keys == t.sessions.Keys && s.app == t.app && s.user == t.user
  }

  function WithoutRewinds(es: seq<Timed>): seq<Timed> {
    if es == [] then [] else (if IsRewind(es[0].op) then [] else [es[0]]) + WithoutRewinds(es[1..])
  }

  lemma RewindSharesNothing(s: Store, op: Operation, now: int)
    requires IsRewind(op)
    ensures SameShared(s, Next(s, op, now))
  {
  }

  lemma AppendedShared(s: Store, t: Store, i: Identity, e: Event)
    requires SameShared(s, t) && i in s.sessions
    ensures SameShared(Appended(s, i, e), Appended(t, i, e))
  {
  }

  lemma AppendedByIdShared(s: Store, t: Store, session: string, e: Event)
    requires SameShared(s, t)
    ensures SameShared(AppendedById(s, session, e), AppendedById(t, session, e))
  {
    assert Owners(s, session) == Owners(t, session);
    if i :| Owners(s, session) == {i} {
      OneOwner(s, session, e, i);
      OneOwner(t, session, e, i);
      AppendedShared(s, t, i, e);
    }
  }

  lemma DeletedShared(s: Store, t: Store, app: string, user: string, now: int, later: int)
    requires SameShared(s, t)
    ensures SameShared(Next(s, DeleteAll(app, user), now), Next(t, DeleteAll(app, user), later))
  {
    var a, b := WithoutScope(s, app, user).sessions, WithoutScope(t, app, user).sessions;
    assert forall i :: i in a <==> i in b;
  }

  lemma CreatedShared(s: Store, t: Store, i: Identity, tiers: Tiers, now: int, later: int)
    requires SameShared(s, t)
    ensures SameShared(Created(s, i, tiers, now), Created(t, i, tiers, later))
  {
  }

  lemma NextShared(s: Store, t: Store, op: Operation, now: int, later: int)
    requires SameShared(s, t) && !IsRewind(op)
    ensures SameShared(Next(s, op, now), Next(t, op, later))
  {
    match op
    case Append(i, e) =>
      if i in s.sessions {
        AppendedShared(s, t, i, e);
      }
    case AppendById(session, e) =>
      AppendedByIdShared(s, t, session, e);
    case Create(i, state) =>
      if ValidIdentity(i) && i !in s.sessions {
        CreatedShared(s, t, i, Extract(state), now, later);
      }
    case Delete(i) =>
    case DeleteAll(app, user) => DeletedShared(s, t, app, user, now, later);
  }

  /** Dropping every rewind from a run changes neither the app tier nor the user tier, nor which
      sessions there are. */
  lemma {:induction false} RewindsDoNotTouchSharedTiers(s: Store, t: Store, es: seq<Timed>)
    requires SameShared(s, t)
    ensures SameShared(Run(s, es), Run(t, WithoutRewinds(es)))
    decreases |es|
  {
    if es != [] {
      var e, rest := es[0], es[1..];
      if IsRewind(e.op) {
        RewindSharesNothing(s, e.op, e.now);
        assert WithoutRewinds(es) == WithoutRewinds(rest);
        RewindsDoNotTouchSharedTiers(Next(s, e.op, e.now), t, rest);
      } else {
        NextShared(s, t, e.op, e.now, e.now);
        assert WithoutRewinds(es)[0] == e && WithoutRewinds(es)[1..] == WithoutRewinds(rest);
        RewindsDoNotTouchSharedTiers(Next(s, e.op, e.now), Next(t, e.op, e.now), rest);
      }
    }
  }

  // ---- Shared tiers reach every session ----

  predicate StateIsSessionKeys(s: Store, i: Identity)
    requires i in s.sessions
  {
    forall j :: j in s.sessions[i].state ==> IsSessionKey(j)
  }

  lemma {:induction false} FoldedIsSession(state: StateMap, events: seq<Event>)
    requires forall k :: k in state ==> IsSessionKey(k)
    ensures forall k :: k in Folded(state, events) ==> IsSessionKey(k)
    decreases |events|
  {
    if events != [] {
      FoldedIsSession(state + SessionPart(events[0].delta), events[1..]);
    }
  }

  lemma ConsistentStateIsSessionKeys(s: Store, i: Identity)
    requires Consistent(s) && i in s.sessions
    ensures StateIsSessionKeys(s, i)
  {
    assert ConsistentSession(s.sessions[i]);
    FoldedIsSession(SessionPart(s.sessions[i].initial), s.sessions[i].events);
  }

  /** What a caller reads under a key: the tier's value under `app:` or `user:`, nothing under `temp:`, and the
      session's own value under any other key. */
  lemma {:induction false} ViewKey(s: Store, i: Identity, k: string)
    requires Consistent(s) && i in s.sessions
    ensures var tier := Tier(s.app, i.app);
            ("app:" + k in ViewOf(s, i) <==> k in tier) && (k in tier ==> ViewOf(s, i)["app:" + k] == tier[k])
    ensures var tier := Tier(s.user, UserKey(i.app, i.user));
            ("user:" + k in ViewOf(s, i) <==> k in tier) && (k in tier ==> ViewOf(s, i)["user:" + k] == tier[k])
    ensures "temp:" + k !in ViewOf(s, i)
    ensures !("app:" <= k) && !("user:" <= k) ==>
              (k in ViewOf(s, i) <==> k in s.sessions[i].state) &&
              (k in ViewOf(s, i) ==> ViewOf(s, i)[k] == s.sessions[i].state[k])
  {
    ConsistentStateIsSessionKeys(s, i);
    ExtractMergeAt(TiersOf(s, i), k);
    MergeIs(TiersOf(s, i), k);
    PrefixedKey(TEMP, k);
    PrefixesDiffer(TEMP + k);
    MergeIs(TiersOf(s, i), TEMP + k);
  }

  lemma {:induction false} SharedPart(delta: StateMap, k: string)
    ensures k in Extract(delta).app <==> "app:" + k in delta
    ensures k in Extract(delta).app ==> Extract(delta).app[k] == delta["app:" + k]
    ensures k in Extract(delta).user <==> "user:" + k in delta
    ensures k in Extract(delta).user ==> Extract(delta).user[k] == delta["user:" + k]
  {
    UnderIs(delta, APP, k);
    UnderIs(delta, USER, k);
  }

  lemma {:induction false} SharedWrite(e: Event, k: string)
    ensures "app:" + k in e.delta ==> k in Extract(Kept(e).delta).app && Extract(Kept(e).delta).app[k] == e.delta["app:" + k]
    ensures "user:" + k in e.delta ==> k in Extract(Kept(e).delta).user && Extract(Kept(e).delta).user[k] == e.delta["user:" + k]
  {
    SharedPart(Kept(e).delta, k);
    PrefixedKey(APP, k);
    PrefixedKey(USER, k);
    PrefixesDiffer(APP + k);
    PrefixesDiffer(USER + k);
  }

  /** A value written through one session to the app tier is what every session of the app reads, and
      one written to the user tier what every session of the user reads. */
  lemma {:induction false} SharedWritesReachEverySession(s: Store, i: Identity, j: Identity, e: Event, k: string)
    requires Consistent(s) && i in s.sessions && j in s.sessions && i.app == j.app
    ensures var r := Appended(s, i, e);
            && j in r.sessions
            && ("app:" + k in e.delta ==> "app:" + k in ViewOf(r, j) && ViewOf(r, j)["app:" + k] == e.delta["app:" + k])
            && (i.user == j.user && "user:" + k in e.delta ==>
                  "user:" + k in ViewOf(r, j) && ViewOf(r, j)["user:" + k] == e.delta["user:" + k])
  {
    var r := Appended(s, i, e);
    NextConsistent(s, Append(i, e), 0);
    ViewKey(r, j, k);
    SharedWrite(e, k);
  }

  lemma CreatedStore(s: Store, i: Identity, t: Tiers, now: int, k: string)
    ensures var u := Created(s, i, t, now);
            && i in u.sessions && u.sessions[i] == Session([], t.session, t.session, now)
            && (k in t.app ==> k in Tier(u.app, i.app) && Tier(u.app, i.app)[k] == t.app[k])
            && (k in t.user ==> k in Tier(u.user, UserKey(i.app, i.user)) && Tier(u.user, UserKey(i.app, i.user))[k] == t.user[k])
  {
  }

  lemma OwnPart(state: StateMap, k: string)
    requires !("app:" <= k) && !("user:" <= k) && !("temp:" <= k)
    ensures k in Extract(state).session <==> k in state
    ensures k in state ==> Extract(state).session[k] == state[k]
  {
  }

  /** The shared keys of the state a session is created with are what every session of the app and of the user
      reads; its temporary keys are kept nowhere, and its other keys are the new session's own. */
  lemma {:induction false} CreatedKeysReachEverySession(
      s: Store, i: Identity, state: StateMap, now: int, j: Identity, k: string)
    requires Consistent(s) && ValidIdentity(i) && i !in s.sessions
    requires j in Next(s, Create(i, state), now).sessions && i.app == j.app
    ensures var u := Next(s, Create(i, state), now);
            && i in u.sessions && u.sessions[i].events == [] && u.sessions[i].updatedAt == now
            && ("app:" + k in state ==> "app:" + k in ViewOf(u, j) && ViewOf(u, j)["app:" + k] == state["app:" + k])
            && (i.user == j.user && "user:" + k in state ==>
                  "user:" + k in ViewOf(u, j) && ViewOf(u, j)["user:" + k] == state["user:" + k])
            && "temp:" + k !in ViewOf(u, j)
            && (!("app:" <= k) && !("user:" <= k) && !("temp:" <= k) ==>
                  (k in ViewOf(u, i) <==> k in state) && (k in state ==> ViewOf(u, i)[k] == state[k]))
  {
    var u := Next(s, Create(i, state), now);
    NextConsistent(s, Create(i, state), now);
    CreatedStore(s, i, Extract(state), now, k);
    SharedPart(state, k);
    ViewKey(u, j, k);
    if !("app:" <= k) && !("user:" <= k) && !("temp:" <= k) {
      OwnPart(state, k);
      ViewKey(u, i, k);
    }
  }

  // ---- What each operation writes ----

  /** An identity is valid when none of its three names is empty, longer than 512 bytes or holds a NUL. */
  lemma {:induction false} IdentityMeaning(i: Identity)
    ensures ValidIdentity(i) <==>
            forall n :: n in [i.app, i.user, i.session] ==> n != "" && '\0' !in n && Utf8Length(n) < 513
  {
    var names := [i.app, i.user, i.session];
    assert names[0] in names && names[1] in names && names[2] in names;
  }

  /** An append adds the event, without its temporary keys, to the one session, which takes its time. */
  lemma {:induction false} AppendWrites(s: Store, i: Identity, e: Event, now: int, j: Identity, k: string)
    requires i in s.sessions && j in s.sessions
    ensures var u := Next(s, Append(i, e), now);
            && u.sessions.Keys == s.sessions.Keys
            && (j != i ==> u.sessions[j] == s.sessions[j])
            && |u.sessions[i].events| == |s.sessions[i].events| + 1
            && s.sessions[i].events <= u.sessions[i].events
            && u.sessions[i].updatedAt == e.timestamp && u.sessions[i].initial == s.sessions[i].initial
            && var kept := u.sessions[i].events[|s.sessions[i].events|];
               && kept.id == e.id && kept.timestamp == e.timestamp && kept.body == e.body
               && (k in kept.delta <==> k in e.delta && !("temp:" <= k))
               && (k in kept.delta ==> kept.delta[k] == e.delta[k])
  {
  }

  /** A rewind keeps the events up to the first with the given id, or all but as many as asked, and nothing
      happens when there is no such event or there are too few. */
  lemma {:induction false} RewindWrites(s: Store, i: Identity, id: string, steps: nat, now: int, p: nat)
    requires i in s.sessions && p < |s.sessions[i].events|
    ensures var events := s.sessions[i].events;
            && (events[p].id == id && (forall m :: 0 <= m < p ==> events[m].id != id) ==>
                  var u := Next(s, Rewind(i, id), now);
                  i in u.sessions && u.sessions[i].events == events[..p + 1] && u.sessions[i].updatedAt == now)
            && ((forall m :: 0 <= m < |events| ==> events[m].id != id) ==> Next(s, Rewind(i, id), now) == s)
            && (0 < steps <= |events| ==>
                  var u := Next(s, RewindSteps(i, steps), now);
                  i in u.sessions && u.sessions[i].events == events[..|events| - steps] && u.sessions[i].updatedAt == now)
            && (steps == 0 || steps > |events| ==> Next(s, RewindSteps(i, steps), now) == s)
  {
    var events := s.sessions[i].events;
    var q := Position(events, id);
    if q.Some? {
      assert events[q.value].id == id;
    }
  }

  /** A deleted session is gone; every other session and the shared tiers stay. Deleting all sessions of a user
      removes exactly the user's sessions of the app. */
  lemma {:induction false} DeletedIsGone(s: Store, i: Identity, now: int, j: Identity)
    requires ValidIdentity(i)
    ensures var u := Next(s, Delete(i), now);
            && i !in u.sessions && u.app == s.app && u.user == s.user
            && (j in u.sessions <==> j in s.sessions && j != i)
            && (j in u.sessions ==> u.sessions[j] == s.sessions[j])
    ensures var u := Next(s, DeleteAll(i.app, i.user), now);
            && u.app == s.app && u.user == s.user
            && (j in u.sessions <==> j in s.sessions && !(j.app == i.app && j.user == i.user))
            && (j in u.sessions ==> u.sessions[j] == s.sessions[j])
  {
  }

  lemma AppendByIdNames(s: Store, session: string, e: Event)
    ensures AppendedById(s, session, e).sessions.Keys == s.sessions.Keys
  {
    if j :| Owners(s, session) == {j} {
      OneOwner(s, session, e, j);
      assert Appended(s, j, e).sessions.Keys == s.sessions.Keys;
    }
  }

  lemma RewoundNames(s: Store, i: Identity, op: Operation, now: int)
    requires IsRewind(op)
    ensures Rewound(s, i, op, now).sessions.Keys == s.sessions.Keys
  {
  }

  lemma StepCreates(s: Store, op: Operation, now: int, i: Identity)
    requires i !in s.sessions && !(op.Create? && op.id == i)
    ensures i !in Next(s, op, now).sessions
  {
    match op
    case Create(j, state) =>
    case Append(j, e) => assert j in s.sessions ==> Appended(s, j, e).sessions.Keys == s.sessions.Keys;
    case AppendById(session, e) => AppendByIdNames(s, session, e);
    case Rewind(j, _) => RewoundNames(s, j, op, now);
    case RewindSteps(j, _) => RewoundNames(s, j, op, now);
    case Delete(j) => assert i !in s.sessions - {j};
    case DeleteAll(app, user) => assert i !in WithoutScope(s, app, user).sessions;
  }

  lemma {:induction false} AbsentStays(s: Store, i: Identity, es: seq<Timed>)
    requires i !in s.sessions && forall k :: 0 <= k < |es| ==> !(es[k].op.Create? && es[k].op.id == i)
    ensures i !in Run(s, es).sessions
    decreases |es|
  {
    if es != [] {
      var u := Next(s, es[0].op, es[0].now);
      StepCreates(s, es[0].op, es[0].now, i);
      AbsentStays(u, i, es[1..]);
    }
  }

  /** A deleted session stays gone, over every run that does not create it again. */
  lemma {:induction false} DeletedStaysGone(s: Store, i: Identity, now: int, es: seq<Timed>)
    requires ValidIdentity(i) && forall k :: 0 <= k < |es| ==> !(es[k].op.Create? && es[k].op.id == i)
    ensures i !in Run(Next(s, Delete(i), now), es).sessions
    ensures i !in Run(Next(s, DeleteAll(i.app, i.user), now), es).sessions
  {
    AbsentStays(Next(s, Delete(i), now), i, es);
    AbsentStays(Next(s, DeleteAll(i.app, i.user), now), i, es);
  }

  /** The bytes of a text in UTF-8 are those of its characters, one to four each. */
  lemma {:induction false} Utf8LengthAdds(a: string, b: string, c: char)
    ensures Utf8Length(a + b) == Utf8Length(a) + Utf8Length(b)
    ensures Utf8Length([c]) == if c as int <= 0x7F then 1 else if c as int <= 0x7FF then 2 else if c as int <= 0xFFFF then 3 else 4
  {
    if a == "" {
      assert a + b == b;
    } else {
      assert (a + b)[1..] == a[1..] + b;
      Utf8LengthAdds(a[1..], b, c);
    }
    assert [c][1..] == "";
  }
}
