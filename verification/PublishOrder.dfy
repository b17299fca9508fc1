/** The publish-order check of the release tooling (scripts/check-publish-order.py): build the
    dependency graph of the publishable crates, peel it with Kahn's algorithm, and report. */
module PublishOrder {
  import opened DependencyGraph
  import opened Wrappers

  /** One dependency as `cargo metadata` lists it; a missing kind means a normal dependency. */
  datatype Dependency = Dependency(name: string, kind: Option<string>, req: string)

  /** `publish` is absent when the crate may be published anywhere, and empty when nowhere. */
  datatype Package = Package(name: string, publish: Option<seq<string>>, dependencies: seq<Dependency>)

  /** A versioned internal dev-dependency, named in the report. */
  datatype Note = Note(crate: string, dependency: string, req: string)

  datatype Verdict =
    | NoOrder(stuck: set<string>, notes: seq<Note>)
    | OrderExists(crates: nat, rounds: nat, notes: seq<Note>)

  // ---- What the graph is ----

  predicate MayPublish(p: Package) {
    !(p.publish.Some? && p.publish.value == [])
  }

  function Publishable(packages: seq<Package>): set<string> {
    set i | 0 <= i < |packages| && MayPublish(packages[i]) :: packages[i].name
  }

  function KindOf(d: Dependency): string {
    if d.kind.None? || d.kind.value == "" then "normal" else d.kind.value
  }

  predicate IsVersionedDev(d: Dependency) {
    KindOf(d) == "dev" && d.req != "*"
  }

  /** The dependencies that must be published first: normal, build, and versioned dev ones. */
  predicate Constrains(publishable: set<string>, d: Dependency) {
    d.name in publishable && (KindOf(d) in {"normal", "build"} || IsVersionedDev(d))
  }

  function EdgesOf(publishable: set<string>, ds: seq<Dependency>): set<string> {
    set i | 0 <= i < |ds| && Constrains(publishable, ds[i]) :: ds[i].name
  }

  function NotesOf(publishable: set<string>, crate: string, ds: seq<Dependency>): seq<Note> {
    if ds == [] then [] else
      var d := ds[|ds| - 1];
      NotesOf(publishable, crate, ds[..|ds| - 1]) +
      if d.name in publishable && IsVersionedDev(d) then [Note(crate, d.name, d.req)] else []
  }

  /** The graph of the listed packages; a crate listed twice keeps its last dependencies. */
  function GraphOver(publishable: set<string>, packages: seq<Package>): Graph {
    if packages == [] then map[] else
      var p := packages[|packages| - 1];
      var before := GraphOver(publishable, packages[..|packages| - 1]);
      if p.name in publishable then before[p.name := EdgesOf(publishable, p.dependencies)] else before
  }

  function AllNotes(publishable: set<string>, packages: seq<Package>): seq<Note> {
    if packages == [] then [] else
      var p := packages[|packages| - 1];
      AllNotes(publishable, packages[..|packages| - 1]) +
      if p.name in publishable then NotesOf(publishable, p.name, p.dependencies) else []
  }

  function GraphOf(packages: seq<Package>): Graph {
    GraphOver(Publishable(packages), packages)
  }

  // ---- Building it ----

  lemma EdgesSnoc(pub: set<string>, ds: seq<Dependency>, d: Dependency)
    ensures EdgesOf(pub, ds + [d]) == EdgesOf(pub, ds) + if Constrains(pub, d) then {d.name} else {}
  {
    var all := ds + [d];
    forall n | n in EdgesOf(pub, ds) + (if Constrains(pub, d) then {d.name} else {})
      ensures n in EdgesOf(pub, all)
    {
      if n in EdgesOf(pub, ds) {
        var k :| 0 <= k < |ds| && Constrains(pub, ds[k]) && ds[k].name == n;
        assert all[k] == ds[k];
      } else {
        assert all[|ds|] == d;
      }
    }
  }

  /** One package's edges and notes. */
  method CollectEdges(publishable: set<string>, crate: string, ds: seq<Dependency>)
    returns (edges: set<string>, notes: seq<Note>)
    ensures edges == EdgesOf(publishable, ds)
    ensures notes == NotesOf(publishable, crate, ds)
  {
    edges, notes := {}, [];
    for k := 0 to |ds|
      invariant edges == EdgesOf(publishable, ds[..k])
      invariant notes == NotesOf(publishable, crate, ds[..k])
    {
      var d := ds[k];
      EdgesSnoc(publishable, ds[..k], d);
      assert ds[..k + 1] == ds[..k] + [d] && ds[..k + 1][..k] == ds[..k];
      if d.name !in publishable {
        continue;
      }
      var kind := KindOf(d);
      if kind == "normal" || kind == "build" {
        edges := edges + {d.name};
      } else if kind == "dev" && d.req != "*" {
        edges := edges + {d.name};
        notes := notes + [Note(crate, d.name, d.req)];
      }
    }
    assert ds[..|ds|] == ds;
  }

  method BuildGraph(packages: seq<Package>) returns (deps: Graph, notes: seq<Note>)
    ensures deps == GraphOf(packages)
    ensures notes == AllNotes(Publishable(packages), packages)
  {
    var publishable := Publishable(packages);
    deps, notes := map[], [];
    for k := 0 to |packages|
      invariant deps == GraphOver(publishable, packages[..k])
      invariant notes == AllNotes(publishable, packages[..k])
    {
      assert packages[..k + 1][..k] == packages[..k];
      var p := packages[k];
      if p.name in publishable {
        var edges, more := CollectEdges(publishable, p.name, p.dependencies);
        notes := notes + more;
        deps := deps[p.name := edges];
      }
    }
    assert packages[..|packages|] == packages;
  }

  // ---- Kahn's algorithm ----

  predicate IsReady(remaining: Graph, n: string)
    requires n in remaining
  {
    forall d :: d in remaining[n] ==> d !in remaining
  }

  function Ready(remaining: Graph): set<string> {
    set n | n in remaining && IsReady(remaining, n)
  }

  predicate IsPartOf(part: Graph, whole: Graph) {
    forall n :: n in part ==> n in whole && part[n] == whole[n]
  }

  /** Exactly the crates that can reach a dependency cycle. */
  ghost predicate IsCycleReaching(g: Graph, crates: set<string>) {
    forall n :: n in crates <==> CanReachCycle(g, n)
  }

  /** The last of `k` rounds still had a crate to remove. */
  ghost predicate RoundsWereNeeded(g: Graph, k: nat) {
    k > 0 ==> Left(g, k - 1) != {}
  }

  method PopAll(m: Graph, ready: set<string>) returns (rest: Graph)
    ensures rest.Keys == m.Keys - ready
    ensures IsPartOf(rest, m)
  {
    rest := m;
    var todo := ready;
    while todo != {}
      invariant todo <= ready
      invariant rest.Keys == m.Keys - (ready - todo)
      invariant IsPartOf(rest, m)
    {
      var n :| n in todo;
      rest := rest - {n};
      todo := todo - {n};
    }
  }

  lemma ProperlyFewer(all: set<string>, gone: set<string>)
    requires gone <= all && gone != {}
    ensures |all - gone| < |all|
  {
    assert all == (all - gone) + gone;
  }

  /** Removes every ready crate, unless there is none. */
  method Round(remaining: Graph) returns (stuck: bool, rest: Graph)
    ensures stuck <==> Ready(remaining) == {}
    ensures !stuck ==> |rest.Keys| < |remaining.Keys|
    ensures rest.Keys == remaining.Keys - Ready(remaining)
    ensures IsPartOf(rest, remaining)
  {
    var ready := Ready(remaining);
    stuck := ready == {};
    if !stuck {
      ProperlyFewer(remaining.Keys, ready);
    }
    rest := PopAll(remaining, ready);
  }

  lemma EmptiedMeansAcyclic(g: Graph, k: nat)
    requires Left(g, k) == {} && RoundsWereNeeded(g, k)
    ensures Acyclic(g) && IsLongestChain(g, k) && IsCycleReaching(g, {})
  {
    EmptiedAfterLongestChain(g, k);
    StuckSetIsCycles(g, k);
    AcyclicIsNoCycleReached(g);
  }

  lemma StuckMeansCyclic(g: Graph, k: nat)
    requires Left(g, k + 1) == Left(g, k) != {}
    ensures !Acyclic(g) && IsCycleReaching(g, Left(g, k))
  {
    StuckSetIsCycles(g, k);
    AcyclicIsNoCycleReached(g);
  }

  lemma ReadyIsPeeled(deps: Graph, k: nat, remaining: Graph)
    requires remaining.Keys == Left(deps, k) && IsPartOf(remaining, deps)
    ensures remaining.Keys - Ready(remaining) == Left(deps, k + 1)
  {
    var ready := Ready(remaining);
    forall n | n in remaining ensures n in ready <==> n !in Left(deps, k + 1) {
      if n in ready {
        forall d | d in Left(deps, k) ensures !Edge(deps, n, d) {
        }
      } else {
        var d :| d in remaining[n] && d in remaining;
        assert Edge(deps, n, d);
      }
    }
  }

  lemma RoundPeels(deps: Graph, k: nat, remaining: Graph)
    requires remaining.Keys == Left(deps, k) && IsPartOf(remaining, deps) && remaining.Keys != {}
    ensures remaining.Keys - Ready(remaining) == Left(deps, k + 1)
    ensures RoundsWereNeeded(deps, k + 1)
    ensures Ready(remaining) == {} ==> !Acyclic(deps) && IsCycleReaching(deps, remaining.Keys)
  {
    ReadyIsPeeled(deps, k, remaining);
    if Ready(remaining) == {} {
      StuckMeansCyclic(deps, k);
    }
  }

  /** Removes, round by round, every crate with no dependency left. */
  method Kahn(deps: Graph) returns (ok: bool, remaining: Graph, rounds: nat)
    ensures ok <==> Acyclic(deps)
    ensures ok <==> remaining.Keys == {}
    ensures IsCycleReaching(deps, remaining.Keys)
    ensures IsPartOf(remaining, deps)
    ensures ok ==> IsLongestChain(deps, rounds)
  {
    remaining, rounds := deps, 0;
    while remaining.Keys != {}
      invariant remaining.Keys == Left(deps, rounds)
      invariant IsPartOf(remaining, deps)
      invariant RoundsWereNeeded(deps, rounds)
      decreases |remaining.Keys|
    {
      var stuck, rest := Round(remaining);
      RoundPeels(deps, rounds, remaining);
      if stuck {
        return false, remaining, rounds;
      }
      remaining := rest;
      rounds := rounds + 1;
    }
    ok := true;
    EmptiedMeansAcyclic(deps, rounds);
  }

  // ---- The check ----

  /** What each verdict means for the crates it was reached on. */
  ghost predicate IsVerdict(packages: seq<Package>, v: Verdict) {
    var g := GraphOf(packages);
    && v.notes == AllNotes(Publishable(packages), packages)
    && match v
       case NoOrder(stuck, _) =>
         !Acyclic(g) && IsCycleReaching(g, stuck)
       case OrderExists(crates, rounds, _) =>
         Acyclic(g) && crates == |g| && IsLongestChain(g, rounds)
  }

  method CheckPublishOrder(packages: seq<Package>) returns (v: Verdict)
    ensures IsVerdict(packages, v)
  {
    var deps, notes := BuildGraph(packages);
    var ok, remaining, rounds := Kahn(deps);
    if ok {
      v := OrderExists(|deps|, rounds, notes);
    } else {
      v := NoOrder(remaining.Keys, notes);
    }
  }

  lemma AcyclicOrder(g: Graph)
    requires Acyclic(g)
    ensures exists order :: ValidPublishOrder(g, order)
  {
    AcyclicIsNoCycleReached(g);
    if n :| n in Left(g, |g|) {
      LeftReachesCycle(g, n);
    }
    var order := OrderOfRounds(g, |g|);
    assert ValidPublishOrder(g, order);
  }

  /** The check accepts exactly when the crates can be published one after another. */
  lemma {:induction false} VerdictMeansOrder(packages: seq<Package>, v: Verdict)
    requires IsVerdict(packages, v)
    ensures v.OrderExists? <==> exists order :: ValidPublishOrder(GraphOf(packages), order)
  {
    var g := GraphOf(packages);
    if v.OrderExists? {
      AcyclicOrder(g);
    }
    if order :| ValidPublishOrder(g, order) {
      ValidOrderIsAcyclic(g, order);
    }
  }

  lemma GraphOverKeys(pub: set<string>, packages: seq<Package>)
    ensures forall n :: n in GraphOver(pub, packages) <==> n in pub && exists i :: 0 <= i < |packages| && packages[i].name == n
    ensures forall n :: n in GraphOver(pub, packages) ==> GraphOver(pub, packages)[n] <= pub
  {
    if packages != [] {
      var k := |packages| - 1;
      GraphOverKeys(pub, packages[..k]);
      forall n | n in pub && exists i :: 0 <= i < |packages| && packages[i].name == n
        ensures n in GraphOver(pub, packages)
      {
        var i :| 0 <= i < |packages| && packages[i].name == n;
        assert i < k ==> packages[..k][i].name == n;
      }
    }
  }

  /** The keys are exactly the publishable crates, so no edge leaves the graph. */
  lemma {:induction false} GraphIsClosed(packages: seq<Package>)
    ensures GraphOf(packages).Keys == Publishable(packages)
    ensures forall n :: n in GraphOf(packages) ==> GraphOf(packages)[n] <= GraphOf(packages).Keys
  {
    GraphOverKeys(Publishable(packages), packages);
  }

  // ---- What a verdict means for the packages as listed ----

  /** The crates that cargo may publish: their manifest gives no list of registries, or one that is not
      empty. */
  predicate IsPublished(packages: seq<Package>, n: string) {
    exists i :: 0 <= i < |packages| && packages[i].name == n && (packages[i].publish.None? || packages[i].publish.value != [])
  }

  /** A dependency that cargo resolves when the crate is published. */
  predicate MustBePublishedFirst(d: Dependency) {
    d.kind == None || d.kind == Some("") || d.kind == Some("normal") || d.kind == Some("build") ||
    (d.kind == Some("dev") && d.req != "*")
  }

  /** The last listing of `n` has such a dependency on `m`. */
  predicate NeedsFirst(packages: seq<Package>, n: string, m: string) {
    exists i, j ::
      0 <= i < |packages| && 0 <= j < |packages[i].dependencies| && packages[i].name == n &&
      (forall k :: i < k < |packages| ==> packages[k].name != n) &&
      packages[i].dependencies[j].name == m && MustBePublishedFirst(packages[i].dependencies[j])
  }

  /** An order in which cargo can publish the crates one after another. */
  ghost predicate CanPublishIn(packages: seq<Package>, order: seq<string>) {
    && (forall n :: n in order <==> IsPublished(packages, n))
    && (forall i, j :: 0 <= i < j < |order| ==> order[i] != order[j])
    && (forall i, j :: 0 <= i < |order| && 0 <= j < |order| && NeedsFirst(packages, order[i], order[j]) ==> j < i)
  }

  lemma PublishedMeaning(packages: seq<Package>, n: string)
    ensures n in Publishable(packages) <==> IsPublished(packages, n)
  {
    if IsPublished(packages, n) {
      var i :| 0 <= i < |packages| && packages[i].name == n && (packages[i].publish.None? || packages[i].publish.value != []);
      assert MayPublish(packages[i]);
    }
  }

  lemma EdgesMeaning(pub: set<string>, ds: seq<Dependency>, m: string)
    ensures m in EdgesOf(pub, ds) <==>
            m in pub && exists j :: 0 <= j < |ds| && ds[j].name == m && MustBePublishedFirst(ds[j])
  {
    forall j | 0 <= j < |ds| ensures Constrains(pub, ds[j]) <==> ds[j].name in pub && MustBePublishedFirst(ds[j]) {
    }
    if m in pub && exists j :: 0 <= j < |ds| && ds[j].name == m && MustBePublishedFirst(ds[j]) {
      var j :| 0 <= j < |ds| && ds[j].name == m && MustBePublishedFirst(ds[j]);
      assert Constrains(pub, ds[j]);
    }
  }

  lemma {:induction false} NeedsFirstLast(packages: seq<Package>, n: string, m: string)
    requires packages != []
    ensures var p := packages[|packages| - 1];
            NeedsFirst(packages, n, m) <==>
            if p.name == n then exists j :: 0 <= j < |p.dependencies| && p.dependencies[j].name == m && MustBePublishedFirst(p.dependencies[j])
            else NeedsFirst(packages[..|packages| - 1], n, m)
  {
    var last := |packages| - 1;
    var p, rest := packages[last], packages[..last];
    if NeedsFirst(packages, n, m) {
      var i, j :| 0 <= i < |packages| && 0 <= j < |packages[i].dependencies| && packages[i].name == n &&
                  (forall k :: i < k < |packages| ==> packages[k].name != n) &&
                  packages[i].dependencies[j].name == m && MustBePublishedFirst(packages[i].dependencies[j]);
      assert i < last ==> rest[i] == packages[i];
    }
    if p.name != n && NeedsFirst(rest, n, m) {
      var i, j :| 0 <= i < |rest| && 0 <= j < |rest[i].dependencies| && rest[i].name == n &&
                  (forall k :: i < k < |rest| ==> rest[k].name != n) &&
                  rest[i].dependencies[j].name == m && MustBePublishedFirst(rest[i].dependencies[j]);
      assert packages[i] == rest[i];
      forall k | i < k < |packages| ensures packages[k].name != n {
        assert k < last ==> packages[k] == rest[k];
      }
    }
  }

  lemma {:induction false} GraphOverMeaning(pub: set<string>, packages: seq<Package>, n: string, m: string)
    ensures n in GraphOver(pub, packages) && m in GraphOver(pub, packages)[n] <==>
            n in pub && m in pub && NeedsFirst(packages, n, m)
    decreases |packages|
  {
    if packages != [] {
      var last := |packages| - 1;
      NeedsFirstLast(packages, n, m);
      GraphOverMeaning(pub, packages[..last], n, m);
      EdgesMeaning(pub, packages[last].dependencies, m);
    }
  }

  lemma {:induction false} EdgeMeaning(packages: seq<Package>, n: string, m: string)
    ensures Edge(GraphOf(packages), n, m) <==> IsPublished(packages, n) && IsPublished(packages, m) && NeedsFirst(packages, n, m)
  {
    GraphIsClosed(packages);
    GraphOverMeaning(Publishable(packages), packages, n, m);
    PublishedMeaning(packages, n);
    PublishedMeaning(packages, m);
  }

  lemma {:induction false} PublishOrderMeaning(packages: seq<Package>, order: seq<string>)
    ensures ValidPublishOrder(GraphOf(packages), order) <==> CanPublishIn(packages, order)
  {
    var g := GraphOf(packages);
    GraphIsClosed(packages);
    forall n ensures n in g <==> IsPublished(packages, n) {
      PublishedMeaning(packages, n);
    }
    assert Elements(order) == g.Keys <==> forall n :: n in order <==> IsPublished(packages, n) by {
      assert forall n :: n in Elements(order) <==> n in order;
    }
    forall i, j | 0 <= i < |order| && 0 <= j < |order|
      ensures Edge(g, order[i], order[j]) <==>
              IsPublished(packages, order[i]) && IsPublished(packages, order[j]) && NeedsFirst(packages, order[i], order[j])
    {
      EdgeMeaning(packages, order[i], order[j]);
    }
    forall i | 0 <= i < |order| ensures order[i] in order && order[i] in Elements(order) {
    }
  }

  /** The check passes exactly when the published crates can be put in an order that has every normal,
      build and versioned dev dependency of a crate before it. */
  lemma {:induction false} VerdictOnPackages(packages: seq<Package>, v: Verdict)
    requires IsVerdict(packages, v)
    ensures v.OrderExists? <==> exists order :: CanPublishIn(packages, order)
  {
    VerdictMeansOrder(packages, v);
    if v.OrderExists? {
      var order :| ValidPublishOrder(GraphOf(packages), order);
      PublishOrderMeaning(packages, order);
    }
    if order :| CanPublishIn(packages, order) {
      PublishOrderMeaning(packages, order);
    }
  }

  /** One of the dependencies is the dev-dependency that the note names. */
  predicate Noted(ds: seq<Dependency>, note: Note) {
    exists j :: 0 <= j < |ds| && ds[j] == Dependency(note.dependency, Some("dev"), note.req)
  }

  lemma NotedLast(ds: seq<Dependency>, note: Note)
    requires ds != []
    ensures Noted(ds, note) <==>
            Noted(ds[..|ds| - 1], note) || ds[|ds| - 1] == Dependency(note.dependency, Some("dev"), note.req)
  {
    var init := ds[..|ds| - 1];
    if Noted(init, note) {
      var j :| 0 <= j < |init| && init[j] == Dependency(note.dependency, Some("dev"), note.req);
      assert ds[j] == init[j];
    }
    if Noted(ds, note) {
      var j :| 0 <= j < |ds| && ds[j] == Dependency(note.dependency, Some("dev"), note.req);
      assert j < |init| ==> init[j] == ds[j];
    }
  }

  lemma {:induction false} NotesOfMeaning(pub: set<string>, crate: string, ds: seq<Dependency>, note: Note)
    ensures note in NotesOf(pub, crate, ds) <==>
            note.crate == crate && note.dependency in pub && note.req != "*" && Noted(ds, note)
    decreases |ds|
  {
    if ds != [] {
      NotesOfMeaning(pub, crate, ds[..|ds| - 1], note);
      NotedLast(ds, note);
    }
  }

  /** One of the packages is the crate that the note names, and has that dependency. */
  predicate NotedBy(packages: seq<Package>, note: Note) {
    exists i :: 0 <= i < |packages| && packages[i].name == note.crate && Noted(packages[i].dependencies, note)
  }

  lemma NotedByLast(packages: seq<Package>, note: Note)
    requires packages != []
    ensures var p := packages[|packages| - 1];
            NotedBy(packages, note) <==>
            NotedBy(packages[..|packages| - 1], note) || (p.name == note.crate && Noted(p.dependencies, note))
  {
    var init := packages[..|packages| - 1];
    if NotedBy(init, note) {
      var i :| 0 <= i < |init| && init[i].name == note.crate && Noted(init[i].dependencies, note);
      assert packages[i] == init[i];
    }
    if NotedBy(packages, note) {
      var i :| 0 <= i < |packages| && packages[i].name == note.crate && Noted(packages[i].dependencies, note);
      assert i < |init| ==> init[i] == packages[i];
    }
  }

  lemma {:induction false} AllNotesMeaning(pub: set<string>, packages: seq<Package>, note: Note)
    ensures note in AllNotes(pub, packages) <==>
            note.crate in pub && note.dependency in pub && note.req != "*" && NotedBy(packages, note)
    decreases |packages|
  {
    if packages != [] {
      var p := packages[|packages| - 1];
      AllNotesMeaning(pub, packages[..|packages| - 1], note);
      NotesOfMeaning(pub, p.name, p.dependencies, note);
      NotedByLast(packages, note);
    }
  }

  /** A note is printed for each versioned dev-dependency between published crates, and for nothing else. */
  lemma {:induction false} NotesMeaning(packages: seq<Package>, v: Verdict, note: Note)
    requires IsVerdict(packages, v)
    ensures note in v.notes <==>
            IsPublished(packages, note.crate) && IsPublished(packages, note.dependency) && note.req != "*" &&
            NotedBy(packages, note)
  {
    PublishedMeaning(packages, note.crate);
    PublishedMeaning(packages, note.dependency);
    AllNotesMeaning(Publishable(packages), packages, note);
  }

  // ---- One more dependency ----

  function AddDependency(packages: seq<Package>, i: nat, d: Dependency): seq<Package>
    requires i < |packages|
  {
    packages[i := packages[i].(dependencies := packages[i].dependencies + [d])]
  }

  lemma SamePublishable(packages: seq<Package>, i: nat, d: Dependency)
    requires i < |packages|
    ensures Publishable(AddDependency(packages, i, d)) == Publishable(packages)
  {
    var more := AddDependency(packages, i, d);
    assert forall k :: 0 <= k < |packages| ==> more[k].name == packages[k].name && more[k].publish == packages[k].publish;
  }

  lemma GraphOverAdded(pub: set<string>, packages: seq<Package>, i: nat, d: Dependency)
    requires i < |packages|
    ensures AddsEdges(GraphOver(pub, packages), GraphOver(pub, AddDependency(packages, i, d)))
    ensures !Constrains(pub, d) ==> GraphOver(pub, packages) == GraphOver(pub, AddDependency(packages, i, d))
  {
    var k := |packages| - 1;
    var more := AddDependency(packages, i, d);
    if i < k {
      GraphOverAdded(pub, packages[..k], i, d);
      assert more[..k] == AddDependency(packages[..k], i, d);
    } else {
      EdgesSnoc(pub, packages[k].dependencies, d);
      assert !Constrains(pub, d) ==> EdgesOf(pub, more[k].dependencies) == EdgesOf(pub, packages[k].dependencies);
      assert more[..k] == packages[..k];
    }
  }

  /** Adding a normal, build or versioned dev dependency never turns a failure into a pass, never
      frees a stuck crate, and never lowers the reported number of tiers. A path-only dev-dependency,
      or one on a crate that is not published, changes none of the three. */
  lemma {:induction false} AddedDependencyVerdict(packages: seq<Package>, i: nat, d: Dependency, v: Verdict, v': Verdict)
    requires i < |packages|
    requires IsVerdict(packages, v) && IsVerdict(AddDependency(packages, i, d), v')
    ensures v.NoOrder? ==> v'.NoOrder? && v.stuck <= v'.stuck
    ensures v'.OrderExists? ==> v.OrderExists? && v.rounds <= v'.rounds && v.crates == v'.crates
    ensures !Constrains(Publishable(packages), d) ==>
              (v.NoOrder? <==> v'.NoOrder?) &&
              (v.NoOrder? ==> v.stuck == v'.stuck) &&
              (v.OrderExists? ==> v.rounds == v'.rounds && v.crates == v'.crates)
  {
    SamePublishable(packages, i, d);
    GraphOverAdded(Publishable(packages), packages, i, d);
    var g, g' := GraphOf(packages), GraphOf(AddDependency(packages, i, d));
    MoreEdgesAreNoEasier(g, g');
    assert |g| == |g.Keys| == |g'.Keys| == |g'|;
    if g == g' && v.OrderExists? {
      MoreEdgesAreNoEasier(g', g);
    }
  }
}
