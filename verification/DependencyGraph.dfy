/** Dependency graphs between crates: chains, cycles, and what survives repeated peeling.

    `Left(g, k)` is what Kahn's algorithm still holds after `k` rounds. The one fact everything
    else follows from is `LeftIsChains`: a crate is left after `k` rounds exactly when a chain of
    `k + 1` crates, each depending on the next, starts at it. */
module DependencyGraph {
  /** Each crate with the crates it depends on. */
  type Graph = map<string, set<string>>

  predicate Edge(g: Graph, a: string, b: string) {
    a in g && b in g && b in g[a]
  }

  /** A sequence of crates of `g`, each depending on the next. */
  ghost predicate Chain(g: Graph, p: seq<string>) {
    p == [] || (p[0] in g && (|p| > 1 ==> Edge(g, p[0], p[1])) && Chain(g, p[1..]))
  }

  ghost predicate ChainFrom(g: Graph, n: string, p: seq<string>) {
    p != [] && p[0] == n && Chain(g, p)
  }

  /** `a` depends on `b`, directly or through other crates. */
  ghost predicate Reaches(g: Graph, a: string, b: string) {
    exists p :: ChainFrom(g, a, p) && |p| > 1 && p[|p| - 1] == b
  }

  ghost predicate Acyclic(g: Graph) {
    forall n :: n in g ==> !Reaches(g, n, n)
  }

  /** `n` is on a dependency cycle or depends on a crate that is. */
  ghost predicate CanReachCycle(g: Graph, n: string) {
    exists m :: Reaches(g, m, m) && ((m == n && n in g) || Reaches(g, n, m))
  }

  /** The number of crates on the longest dependency chain. */
  ghost predicate IsLongestChain(g: Graph, k: nat) {
    && (exists p :: Chain(g, p) && |p| == k)
    && (forall p :: Chain(g, p) ==> |p| <= k)
  }

  // ---- Chains ----

  lemma ChainTake(g: Graph, p: seq<string>, k: nat)
    requires Chain(g, p) && k <= |p|
    ensures Chain(g, p[..k])
  {
    if k > 0 {
      ChainTake(g, p[1..], k - 1);
      assert p[..k][1..] == p[1..][..k - 1];
    }
  }

  lemma ChainDrop(g: Graph, p: seq<string>, k: nat)
    requires Chain(g, p) && k <= |p|
    ensures Chain(g, p[k..])
  {
    if k > 0 {
      ChainDrop(g, p[1..], k - 1);
      assert p[k..] == p[1..][k - 1..];
    }
  }

  lemma ChainStep(g: Graph, p: seq<string>, i: nat)
    requires Chain(g, p) && i < |p|
    ensures p[i] in g
    ensures i + 1 < |p| ==> Edge(g, p[i], p[i + 1])
  {
    ChainDrop(g, p, i);
  }

  // ---- Peeling ----

  /** What one round keeps: the crates with a dependency among `r`. */
  ghost function Peel(g: Graph, r: set<string>): set<string>
  {
    set n | n in r && exists d :: d in r && Edge(g, n, d)
  }

  /** What is left of `g` after `k` rounds. */
  ghost function Left(g: Graph, k: nat): (r: set<string>)
    ensures r <= g.Keys
  {
    if k == 0 then g.Keys else Peel(g, Left(g, k - 1))
  }

  lemma LeftShrinks(g: Graph, i: nat, j: nat)
    requires i <= j
    ensures Left(g, j) <= Left(g, i)
    decreases j
  {
    if i < j {
      LeftShrinks(g, i, j - 1);
    }
  }

  /** A crate is left after `k` rounds exactly when a chain of `k + 1` crates starts at it. */
  lemma {:induction false} LeftIsChains(g: Graph, k: nat, n: string)
    ensures n in Left(g, k) <==> exists p :: ChainFrom(g, n, p) && |p| == k + 1
  {
    if k == 0 {
      if n in g {
        assert Chain(g, []);
        assert ChainFrom(g, n, [n]);
      }
    } else {
      if n in Left(g, k) {
        var d :| d in Left(g, k - 1) && Edge(g, n, d);
        LeftIsChains(g, k - 1, d);
        var p :| ChainFrom(g, d, p) && |p| == k;
        assert ([n] + p)[1..] == p;
        assert ChainFrom(g, n, [n] + p);
      }
      if p :| ChainFrom(g, n, p) && |p| == k + 1 {
        ChainTake(g, p, k);
        assert ChainFrom(g, n, p[..k]);
        LeftIsChains(g, k - 1, n);
        assert ChainFrom(g, p[1], p[1..]);
        LeftIsChains(g, k - 1, p[1]);
      }
    }
  }

  /** Once a round removes nothing, no later round does. */
  lemma LeftStuck(g: Graph, i: nat, j: nat)
    requires i <= j && Left(g, i + 1) == Left(g, i)
    ensures Left(g, j) == Left(g, i)
    decreases j
  {
    if i < j {
      LeftStuck(g, i, j - 1);
    }
  }

  // ---- Cycles ----

  ghost function Elements(p: seq<string>): set<string> {
    set i | 0 <= i < |p| :: p[i]
  }

  lemma Pigeonhole(p: seq<string>, s: set<string>)
    requires Elements(p) <= s && |p| > |s|
    ensures exists i, j :: 0 <= i < j < |p| && p[i] == p[j]
  {
    var last := |p| - 1;
    if i :| 0 <= i < last && p[i] == p[last] {
    } else {
      assert p[last] in Elements(p);
      var q := p[..last];
      assert Elements(q) <= s - {p[last]} by {
        forall i | 0 <= i < |q| ensures q[i] in s - {p[last]} {
          assert p[i] in Elements(p);
        }
      }
      Pigeonhole(q, s - {p[last]});
      var i, j :| 0 <= i < j < |q| && q[i] == q[j];
      assert p[i] == p[j];
    }
  }

  ghost predicate DependsInto(g: Graph, x: string, c: set<string>) {
    exists y :: y in c && Edge(g, x, y)
  }

  /** A set each of whose crates depends on another of the set is never peeled. */
  lemma {:induction false} ClosedSetIsLeft(g: Graph, c: set<string>, k: nat)
    requires c <= g.Keys
    requires forall x :: x in c ==> DependsInto(g, x, c)
    ensures c <= Left(g, k)
  {
    if k > 0 {
      ClosedSetIsLeft(g, c, k - 1);
      forall x | x in c ensures x in Left(g, k) {
        assert DependsInto(g, x, c);
      }
    }
  }

  lemma ChainElementsStep(g: Graph, p: seq<string>, x: string)
    requires Chain(g, p) && x in Elements(p) && x != p[|p| - 1]
    ensures x in g && DependsInto(g, x, Elements(p))
  {
    var i :| 0 <= i < |p| && p[i] == x;
    ChainStep(g, p, i);
    assert p[i + 1] in Elements(p);
  }

  lemma CycleElementsStep(g: Graph, m: string, p: seq<string>, x: string)
    requires ChainFrom(g, m, p) && |p| > 1 && p[|p| - 1] == m && x in Elements(p)
    ensures x in g && DependsInto(g, x, Elements(p))
  {
    if x == m {
      ChainStep(g, p, 0);
      assert p[1] in Elements(p);
    } else {
      ChainElementsStep(g, p, x);
    }
  }

  /** A crate that can reach a cycle survives every number of rounds. */
  lemma CycleIsLeft(g: Graph, n: string, k: nat)
    requires CanReachCycle(g, n)
    ensures n in Left(g, k)
  {
    var m :| Reaches(g, m, m) && ((m == n && n in g) || Reaches(g, n, m));
    var c :| ChainFrom(g, m, c) && |c| > 1 && c[|c| - 1] == m;
    var p := [n];
    if m == n {
      assert Chain(g, p);
    } else {
      p :| ChainFrom(g, n, p) && |p| > 1 && p[|p| - 1] == m;
    }
    var s := Elements(c) + Elements(p);
    assert c[0] in Elements(c) && p[0] in Elements(p);
    forall x | x in s ensures x in g && DependsInto(g, x, s) {
      if x in Elements(c) {
        CycleElementsStep(g, m, c, x);
      } else {
        ChainElementsStep(g, p, x);
      }
    }
    ClosedSetIsLeft(g, s, k);
  }

  /** A chain that visits a crate twice leads to a cycle. */
  lemma RepeatIsCycle(g: Graph, p: seq<string>, i: nat, j: nat)
    requires Chain(g, p) && i < j < |p| && p[i] == p[j]
    ensures CanReachCycle(g, p[0])
  {
    var m := p[i];
    ChainTake(g, p, j + 1);
    ChainDrop(g, p[..j + 1], i);
    var c := p[..j + 1][i..];
    assert ChainFrom(g, m, c) && |c| > 1 && c[|c| - 1] == m;
    assert Reaches(g, m, m);
    ChainTake(g, p, i + 1);
    var q := p[..i + 1];
    assert i > 0 ==> ChainFrom(g, p[0], q) && |q| > 1 && q[|q| - 1] == m;
  }

  /** A crate that survives as many rounds as there are crates can reach a cycle. */
  lemma LeftReachesCycle(g: Graph, n: string)
    requires n in Left(g, |g|)
    ensures CanReachCycle(g, n)
  {
    LeftIsChains(g, |g|, n);
    var p :| ChainFrom(g, n, p) && |p| == |g| + 1;
    forall x | x in Elements(p) ensures x in g.Keys {
      var i :| 0 <= i < |p| && p[i] == x;
      ChainStep(g, p, i);
    }
    Pigeonhole(p, g.Keys);
    var i, j :| 0 <= i < j < |p| && p[i] == p[j];
    RepeatIsCycle(g, p, i, j);
  }

  /** When a round removes nothing, what is left is exactly the crates that can reach a cycle. */
  lemma {:induction false} StuckSetIsCycles(g: Graph, k: nat)
    requires Left(g, k + 1) == Left(g, k)
    ensures forall n :: n in Left(g, k) <==> CanReachCycle(g, n)
  {
    var top := if k < |g| then |g| else k;
    LeftStuck(g, k, top);
    forall n ensures n in Left(g, k) <==> CanReachCycle(g, n) {
      if n in Left(g, k) {
        LeftShrinks(g, |g|, top);
        LeftReachesCycle(g, n);
      }
      if CanReachCycle(g, n) {
        CycleIsLeft(g, n, k);
      }
    }
  }

  lemma ReachesIsInGraph(g: Graph, a: string, b: string)
    requires Reaches(g, a, b)
    ensures a in g && b in g
  {
    var p :| ChainFrom(g, a, p) && |p| > 1 && p[|p| - 1] == b;
    ChainStep(g, p, |p| - 1);
  }

  /** A graph has a crate that can reach a cycle exactly when it has a cycle. */
  lemma {:induction false} AcyclicIsNoCycleReached(g: Graph)
    ensures Acyclic(g) <==> forall n :: !CanReachCycle(g, n)
  {
    if n :| n in g && Reaches(g, n, n) {
      assert CanReachCycle(g, n);
    }
    if n :| CanReachCycle(g, n) {
      var m :| Reaches(g, m, m) && ((m == n && n in g) || Reaches(g, n, m));
      ReachesIsInGraph(g, m, m);
    }
  }

  /** When round `k` empties the graph and round `k - 1` did not, the longest chain has `k` crates. */
  lemma {:induction false} EmptiedAfterLongestChain(g: Graph, k: nat)
    requires Left(g, k) == {}
    requires k > 0 ==> Left(g, k - 1) != {}
    ensures IsLongestChain(g, k)
  {
    if k == 0 {
      var none: seq<string> := [];
      assert Chain(g, none) && |none| == k;
    } else {
      var n :| n in Left(g, k - 1);
      LeftIsChains(g, k - 1, n);
      var p :| ChainFrom(g, n, p) && |p| == k;
      assert Chain(g, p);
    }
    forall p | Chain(g, p) ensures |p| <= k {
      if |p| > k {
        ChainTake(g, p, k + 1);
        assert ChainFrom(g, p[0], p[..k + 1]);
        LeftIsChains(g, k, p[0]);
      }
    }
  }

  // ---- Publish orders ----

  /** A sequential publish: every crate once, each after everything it depends on. */
  ghost predicate ValidPublishOrder(g: Graph, order: seq<string>) {
    && Elements(order) == g.Keys
    && (forall i, j :: 0 <= i < j < |order| ==> order[i] != order[j])
    && (forall i, j :: 0 <= i < |order| && 0 <= j < |order| && Edge(g, order[i], order[j]) ==> j < i)
  }

  /** The round in which Kahn's algorithm removes `n`. */
  ghost predicate RemovedInRound(g: Graph, n: string, k: nat) {
    n in Left(g, k) && n !in Left(g, k + 1)
  }

  lemma {:induction false} RemovedAtMostOnce(g: Graph, n: string, i: nat, j: nat)
    requires RemovedInRound(g, n, i) && RemovedInRound(g, n, j)
    ensures i == j
  {
    if i < j {
      LeftShrinks(g, i + 1, j);
    } else if j < i {
      LeftShrinks(g, j + 1, i);
    }
  }

  /** A dependency is removed in a strictly earlier round than the crates that depend on it. */
  lemma {:induction false} DependencyRemovedEarlier(g: Graph, n: string, d: string, i: nat, j: nat)
    requires RemovedInRound(g, n, i) && RemovedInRound(g, d, j) && Edge(g, n, d)
    ensures j < i
  {
    if j >= i {
      LeftShrinks(g, i, j);
    }
  }

  lemma RoundOf(g: Graph, n: string, k: nat) returns (r: nat)
    requires n in g && n !in Left(g, k)
    ensures r < k && RemovedInRound(g, n, r)
  {
    r := 0;
    while n in Left(g, r + 1)
      invariant n in Left(g, r) && r < k
      decreases k - r
    {
      r := r + 1;
    }
  }

  /** When `k` rounds empty the graph, every crate is removed in one of them and in no other round. */
  lemma {:induction false} RemovedOnce(g: Graph, k: nat, n: string)
    requires Left(g, k) == {} && n in g
    ensures exists r :: 0 <= r < k && RemovedInRound(g, n, r) && forall q: nat :: RemovedInRound(g, n, q) ==> q == r
  {
    var r := RoundOf(g, n, k);
    forall q: nat | RemovedInRound(g, n, q) ensures q == r {
      RemovedAtMostOnce(g, n, q, r);
    }
  }

  /** Every order that lists each crate once and never goes back to an earlier round is a valid
      publish order, whatever the order inside a round. */
  lemma {:induction false} RoundOrderIsValid(g: Graph, order: seq<string>, round: map<string, nat>)
    requires Elements(order) == g.Keys
    requires forall i, j :: 0 <= i < j < |order| ==> order[i] != order[j]
    requires forall n :: n in g ==> n in round && RemovedInRound(g, n, round[n])
    requires forall i, j ::
               0 <= i < j < |order| && order[i] in round && order[j] in round ==>
                 round[order[i]] <= round[order[j]]
    ensures ValidPublishOrder(g, order)
  {
    forall i, j | 0 <= i < |order| && 0 <= j < |order| && Edge(g, order[i], order[j])
      ensures j < i
    {
      DependencyRemovedEarlier(g, order[i], order[j], round[order[i]], round[order[j]]);
    }
  }

  lemma AppendTier(s: set<string>) returns (order: seq<string>)
    ensures Elements(order) == s
    ensures forall i, j :: 0 <= i < j < |order| ==> order[i] != order[j]
  {
    if s == {} {
      order := [];
    } else {
      var x :| x in s;
      var rest := AppendTier(s - {x});
      order := rest + [x];
      assert Elements(order) == Elements(rest) + {x} by {
        forall y | y in Elements(rest) + {x} ensures y in Elements(order) {
          if y == x {
            assert order[|rest|] == x;
          } else {
            var i :| 0 <= i < |rest| && rest[i] == y;
            assert order[i] == y;
          }
        }
      }
      forall i, j | 0 <= i < j < |order| ensures order[i] != order[j] {
        if j == |rest| {
          assert rest[i] in Elements(rest);
        }
      }
    }
  }

  /** While a dependency is left, so is everything that depends on it. */
  lemma LeftKeepsDependants(g: Graph, k: nat, n: string, d: string)
    requires Edge(g, n, d) && d in Left(g, k)
    ensures n in Left(g, k)
  {
    if k > 0 {
      LeftShrinks(g, k - 1, k);
      LeftKeepsDependants(g, k - 1, n, d);
    }
  }

  /** The crates removed in the first `k` rounds, in round order. */
  lemma OrderOfRounds(g: Graph, k: nat) returns (order: seq<string>)
    ensures Elements(order) == g.Keys - Left(g, k)
    ensures forall i, j :: 0 <= i < j < |order| ==> order[i] != order[j]
    ensures forall i, j :: 0 <= i < |order| && 0 <= j < |order| && Edge(g, order[i], order[j]) ==> j < i
  {
    if k == 0 {
      order := [];
    } else {
      var before := OrderOfRounds(g, k - 1);
      LeftShrinks(g, k - 1, k);
      var tier := AppendTier(Left(g, k - 1) - Left(g, k));
      order := before + tier;
      assert Elements(order) == Elements(before) + Elements(tier) by {
        forall y | y in Elements(before) + Elements(tier) ensures y in Elements(order) {
          if y in Elements(before) {
            var i :| 0 <= i < |before| && before[i] == y;
            assert order[i] == y;
          } else {
            var i :| 0 <= i < |tier| && tier[i] == y;
            assert order[|before| + i] == y;
          }
        }
      }
      forall i | 0 <= i < |order|
        ensures i < |before| ==> order[i] in g.Keys - Left(g, k - 1)
        ensures i >= |before| ==> order[i] in Left(g, k - 1) - Left(g, k)
      {
        if i < |before| {
          assert before[i] in Elements(before);
        } else {
          assert tier[i - |before|] in Elements(tier);
        }
      }
      forall i, j | 0 <= i < |order| && 0 <= j < |order| && Edge(g, order[i], order[j])
        ensures j < i
      {
        if i < |before| && j >= |before| {
          LeftKeepsDependants(g, k - 1, order[i], order[j]);
        }
      }
    }
  }

  lemma OrderPosition(g: Graph, order: seq<string>, n: string) returns (i: nat)
    requires ValidPublishOrder(g, order) && n in g
    ensures i < |order| && order[i] == n
  {
    assert n in Elements(order);
    i :| 0 <= i < |order| && order[i] == n;
  }

  /** In a valid publish order a chain's later crates come earlier. */
  lemma ChainGoesBack(g: Graph, order: seq<string>, p: seq<string>, i: nat, j: nat)
    requires ValidPublishOrder(g, order) && Chain(g, p) && |p| > 1
    requires i < |order| && order[i] == p[0] && j < |order| && order[j] == p[|p| - 1]
    ensures j < i
  {
    ChainStep(g, p, 1);
    var k := OrderPosition(g, order, p[1]);
    assert Edge(g, order[i], order[k]);
    if |p| > 2 {
      ChainGoesBack(g, order, p[1..], k, j);
    } else {
      assert k == j;
    }
  }

  lemma {:induction false} ValidOrderIsAcyclic(g: Graph, order: seq<string>)
    requires ValidPublishOrder(g, order)
    ensures Acyclic(g)
  {
    forall n | n in g ensures !Reaches(g, n, n) {
      if Reaches(g, n, n) {
        var p :| ChainFrom(g, n, p) && |p| > 1 && p[|p| - 1] == n;
        var i := OrderPosition(g, order, n);
        ChainGoesBack(g, order, p, i, i);
      }
    }
  }

  // ---- More edges ----

  /** The same crates, with at least the same dependencies. */
  predicate AddsEdges(g: Graph, g': Graph) {
    g.Keys == g'.Keys && forall n :: n in g ==> g[n] <= g'[n]
  }

  lemma LeftGrows(g: Graph, g': Graph, k: nat)
    requires AddsEdges(g, g')
    ensures Left(g, k) <= Left(g', k)
  {
    if k > 0 {
      LeftGrows(g, g', k - 1);
      forall n | n in Left(g, k) ensures n in Left(g', k) {
        var d :| d in Left(g, k - 1) && Edge(g, n, d);
        assert Edge(g', n, d);
      }
    }
  }

  lemma ChainSurvives(g: Graph, g': Graph, p: seq<string>)
    requires AddsEdges(g, g') && Chain(g, p)
    ensures Chain(g', p)
  {
  }

  /** More dependencies never remove a cycle, never free a crate that could reach one, and never
      shorten the longest chain. */
  lemma {:induction false} MoreEdgesAreNoEasier(g: Graph, g': Graph)
    requires AddsEdges(g, g')
    ensures Acyclic(g') ==> Acyclic(g)
    ensures forall n :: CanReachCycle(g, n) ==> CanReachCycle(g', n)
    ensures forall k, k' :: IsLongestChain(g, k) && IsLongestChain(g', k') ==> k <= k'
  {
    forall n | CanReachCycle(g, n) ensures CanReachCycle(g', n) {
      CycleIsLeft(g, n, |g|);
      LeftGrows(g, g', |g|);
      assert |g| == |g.Keys| == |g'.Keys| == |g'|;
      LeftReachesCycle(g', n);
    }
    AcyclicIsNoCycleReached(g);
    AcyclicIsNoCycleReached(g');
    forall k, k' | IsLongestChain(g, k) && IsLongestChain(g', k') ensures k <= k' {
      var p :| Chain(g, p) && |p| == k;
      ChainSurvives(g, g', p);
    }
  }
}
