/** Session state in three tiers (adk-session/src/state_utils.rs): splitting a flat state into the app,
    user and session tiers, merging them back, and rebuilding the session tier from events. */
module SessionState {
  type Value = string
  type StateMap = map<string, Value>

  const APP := "app:"
  const USER := "user:"
  const TEMP := "temp:"

  datatype Tiers = Tiers(app: StateMap, user: StateMap, session: StateMap)

  predicate IsSessionKey(k: string) {
    !(APP <= k) && !(USER <= k) && !(TEMP <= k)
  }

  /** The entries under a prefix, with the prefix stripped. */
  function Under(delta: StateMap, prefix: string): StateMap {
    map k | k in (set j | j in delta && prefix <= j :: j[|prefix|..]) && prefix + k in delta :: delta[prefix + k]
  }

  function SessionPart(delta: StateMap): StateMap {
    map k | k in delta && IsSessionKey(k) :: delta[k]
  }

  function Extract(delta: StateMap): Tiers {
    Tiers(Under(delta, APP), Under(delta, USER), SessionPart(delta))
  }

  /** The entries of a tier with its prefix put back. */
  function Prefixed(tier: StateMap, prefix: string): StateMap {
    map k | k in (set j | j in tier :: prefix + j) && prefix <= k && k[|prefix|..] in tier :: tier[k[|prefix|..]]
  }

  function Merge(t: Tiers): StateMap {
    t.session + Prefixed(t.app, APP) + Prefixed(t.user, USER)
  }

  function WithoutTemp(delta: StateMap): StateMap {
    map k | k in delta && !(TEMP <= k) :: delta[k]
  }

  lemma {:induction false} UnderIs(delta: StateMap, prefix: string, k: string)
    ensures k in Under(delta, prefix) <==> prefix + k in delta
    ensures k in Under(delta, prefix) ==> Under(delta, prefix)[k] == delta[prefix + k]
  {
    if prefix + k in delta {
      assert (prefix + k)[|prefix|..] == k;
    }
  }

  lemma {:induction false} PrefixedIs(tier: StateMap, prefix: string, k: string)
    ensures k in Prefixed(tier, prefix) <==> prefix <= k && k[|prefix|..] in tier
    ensures k in Prefixed(tier, prefix) ==> Prefixed(tier, prefix)[k] == tier[k[|prefix|..]]
  {
    if prefix <= k && k[|prefix|..] in tier {
      assert k == prefix + k[|prefix|..];
    }
  }

  lemma PrefixesDiffer(k: string)
    ensures !(APP <= k && USER <= k) && !(APP <= k && TEMP <= k) && !(USER <= k && TEMP <= k)
  {
    if APP <= k {
      assert k[0] == 'a';
    }
    if USER <= k {
      assert k[0] == 'u';
    }
    if TEMP <= k {
      assert k[0] == 't';
    }
  }

  lemma {:induction false} MergeIs(t: Tiers, k: string)
    requires forall j :: j in t.session ==> IsSessionKey(j)
    ensures k in Merge(t) <==>
            k in t.session || (APP <= k && k[|APP|..] in t.app) || (USER <= k && k[|USER|..] in t.user)
    ensures k in t.session ==> Merge(t)[k] == t.session[k]
    ensures APP <= k && k[|APP|..] in t.app ==> Merge(t)[k] == t.app[k[|APP|..]]
    ensures USER <= k && k[|USER|..] in t.user ==> Merge(t)[k] == t.user[k[|USER|..]]
  {
    PrefixedIs(t.app, APP, k);
    PrefixedIs(t.user, USER, k);
    PrefixesDiffer(k);
  }

  lemma UnderStripped(delta: StateMap, prefix: string, k: string)
    requires prefix <= k
    ensures k[|prefix|..] in Under(delta, prefix) <==> k in delta
    ensures k in delta ==> Under(delta, prefix)[k[|prefix|..]] == delta[k]
  {
    UnderIs(delta, prefix, k[|prefix|..]);
    assert prefix + k[|prefix|..] == k;
  }

  /** At one key, the tiers hold what the state holds. */
  predicate SplitAt(t: Tiers, delta: StateMap, k: string) {
    if APP <= k then
      (k[|APP|..] in t.app <==> k in delta) && (k in delta ==> t.app[k[|APP|..]] == delta[k])
    else if USER <= k then
      (k[|USER|..] in t.user <==> k in delta) && (k in delta ==> t.user[k[|USER|..]] == delta[k])
    else
      (k in t.session <==> k in delta && !(TEMP <= k)) && (k in t.session ==> t.session[k] == delta[k])
  }

  lemma ExtractSplits(delta: StateMap, k: string)
    ensures SplitAt(Extract(delta), delta, k)
  {
    if APP <= k {
      UnderStripped(delta, APP, k);
    } else if USER <= k {
      UnderStripped(delta, USER, k);
    }
  }

  lemma {:induction false} MergeSplit(t: Tiers, delta: StateMap, k: string)
    requires forall j :: j in t.session ==> IsSessionKey(j)
    requires SplitAt(t, delta, k)
    ensures k in Merge(t) <==> k in delta && !(TEMP <= k)
    ensures k in Merge(t) ==> Merge(t)[k] == delta[k]
  {
    MergeIs(t, k);
    PrefixesDiffer(k);
  }

  lemma MergedIsWithoutTemp(m: StateMap, delta: StateMap)
    requires forall k :: k in m <==> k in delta && !(TEMP <= k)
    requires forall k :: k in m ==> m[k] == delta[k]
    ensures m == WithoutTemp(delta)
  {
  }

  /** Merging the tiers of a state gives the state back, less its temporary keys. */
  lemma {:induction false} MergeExtract(delta: StateMap)
    ensures Merge(Extract(delta)) == WithoutTemp(delta)
  {
    var t := Extract(delta);
    var m := Merge(t);
    forall k
      ensures k in m <==> k in delta && !(TEMP <= k)
      ensures k in m ==> m[k] == delta[k]
    {
      ExtractSplits(delta, k);
      MergeSplit(t, delta, k);
    }
    MergedIsWithoutTemp(m, delta);
  }

  lemma PrefixedKey(prefix: string, k: string)
    ensures prefix <= prefix + k && (prefix + k)[|prefix|..] == k
  {
  }

  lemma {:induction false} ExtractMergeAt(t: Tiers, k: string)
    requires forall j :: j in t.session ==> IsSessionKey(j)
    ensures APP + k in Merge(t) <==> k in t.app
    ensures k in t.app ==> Merge(t)[APP + k] == t.app[k]
    ensures USER + k in Merge(t) <==> k in t.user
    ensures k in t.user ==> Merge(t)[USER + k] == t.user[k]
  {
    PrefixedKey(APP, k);
    PrefixedKey(USER, k);
    MergeIs(t, APP + k);
    MergeIs(t, USER + k);
    PrefixesDiffer(APP + k);
    PrefixesDiffer(USER + k);
  }

  lemma {:induction false} UnderMerged(m: StateMap, tier: StateMap, prefix: string)
    requires forall k :: prefix + k in m <==> k in tier
    requires forall k :: k in tier ==> m[prefix + k] == tier[k]
    ensures Under(m, prefix) == tier
  {
    forall k
      ensures k in Under(m, prefix) <==> k in tier
      ensures k in tier ==> Under(m, prefix)[k] == tier[k]
    {
      UnderIs(m, prefix, k);
    }
  }

  lemma SessionPartMerge(t: Tiers)
    requires forall j :: j in t.session ==> IsSessionKey(j)
    ensures SessionPart(Merge(t)) == t.session
  {
    var m := Merge(t);
    forall k
      ensures k in SessionPart(m) <==> k in t.session
      ensures k in t.session ==> SessionPart(m)[k] == t.session[k]
    {
      MergeIs(t, k);
    }
  }

  /** Splitting merged tiers gives the tiers back, when the session tier holds session keys only. */
  lemma {:induction false} ExtractMerge(t: Tiers)
    requires forall j :: j in t.session ==> IsSessionKey(j)
    ensures Extract(Merge(t)) == t
  {
    var m := Merge(t);
    forall k
      ensures APP + k in m <==> k in t.app
      ensures k in t.app ==> m[APP + k] == t.app[k]
      ensures USER + k in m <==> k in t.user
      ensures k in t.user ==> m[USER + k] == t.user[k]
    {
      ExtractMergeAt(t, k);
    }
    UnderMerged(m, t.app, APP);
    UnderMerged(m, t.user, USER);
    SessionPartMerge(t);
  }

  lemma SessionPartIdempotent(delta: StateMap)
    ensures SessionPart(SessionPart(delta)) == SessionPart(delta)
    ensures SessionPart(WithoutTemp(delta)) == SessionPart(delta)
  {
  }

  // ---- Events ----

  datatype Event = Event(id: string, delta: StateMap, timestamp: int, body: Value)

  /** The session tier after the deltas of some events, in order. */
  function Folded(state: StateMap, events: seq<Event>): StateMap
    decreases |events|
  {
    if events == [] then state else Folded(state + SessionPart(events[0].delta), events[1..])
  }

  /** `rebuild_session_state` */
  function Rebuilt(initial: StateMap, events: seq<Event>): StateMap {
    Folded(SessionPart(initial), events)
  }

  method RebuildSessionState(initial: StateMap, events: seq<Event>) returns (state: StateMap)
    ensures state == Rebuilt(initial, events)
  {
    state := SessionPart(initial);
    for i := 0 to |events|
      invariant Folded(state, events[i..]) == Rebuilt(initial, events)
    {
      assert events[i..][0] == events[i] && events[i..][1..] == events[i + 1..];
      state := state + SessionPart(events[i].delta);
    }
  }

  lemma {:induction false} FoldedAppend(state: StateMap, a: seq<Event>, b: seq<Event>)
    ensures Folded(state, a + b) == Folded(Folded(state, a), b)
    decreases |a|
  {
    if a == [] {
      assert a + b == b;
    } else {
      FoldedAppend(state + SessionPart(a[0].delta), a[1..], b);
      assert (a + b)[1..] == a[1..] + b;
    }
  }

  /** The last of the events that set a key decides its value; without one it keeps its first. */
  lemma {:induction false} FoldedValue(state: StateMap, events: seq<Event>, k: string)
    ensures k in Folded(state, events) <==>
            k in state || exists i :: 0 <= i < |events| && k in SessionPart(events[i].delta)
    ensures forall i ::
              0 <= i < |events| && k in SessionPart(events[i].delta) &&
              (forall j :: i < j < |events| ==> k !in SessionPart(events[j].delta)) ==>
                k in Folded(state, events) && Folded(state, events)[k] == events[i].delta[k]
    ensures (forall i :: 0 <= i < |events| ==> k !in SessionPart(events[i].delta)) && k in state ==>
              Folded(state, events)[k] == state[k]
    decreases |events|
  {
    if events != [] {
      var n := |events| - 1;
      var last := events[n];
      FoldedValue(state, events[..n], k);
      FoldedAppend(state, events[..n], [last]);
      assert events == events[..n] + [last];
      assert [last][1..] == [];
      assert Folded(state, events) == Folded(state, events[..n]) + SessionPart(last.delta);
      assert forall i :: 0 <= i < n ==> events[..n][i] == events[i];
    }
  }
}
