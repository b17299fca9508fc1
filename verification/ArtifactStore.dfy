/** The in-memory artifact service (adk-artifact/src/inmemory.rs, service.rs): versioned artifacts in a
    session's scope or in the scope all sessions of a user share. */
module ArtifactStore {
  import opened Wrappers

  const I64_MIN: int := -0x8000_0000_0000_0000
  const I64_MAX: int := 0x7FFF_FFFF_FFFF_FFFF

  type Version = x: int | I64_MIN <= x <= I64_MAX
  type Part = string

  const USER_SCOPE := "user"

  /** One artifact: every version of it is stored under the same slot. */
  datatype Slot = Slot(app: string, user: string, session: string, file: string)

  datatype Key = Key(slot: Slot, version: Version)

  type Artifacts = map<Key, Part>

  datatype Name = Name(app: string, user: string, session: string, file: string)

  datatype Reply =
    | Saved(version: Version)
    | Loaded(part: Part)
    | Deleted
    | Found
    | InvalidFileName
    | ReservedSession
    | VersionExists(version: Version)
    | NotFound

  predicate IsUserScoped(file: string) {
    "user:" <= file
  }

  /** Names are logical keys, not paths. */
  predicate ValidFileName(file: string) {
    file != "" && '/' !in file && '\\' !in file && file != "." &&
    forall i :: 0 < i < |file| ==> !(file[i - 1] == '.' && file[i] == '.')
  }

  /** The slot a name is stored under. */
  function SlotOf(n: Name): Slot {
    Slot(n.app, n.user, if IsUserScoped(n.file) then USER_SCOPE else n.session, n.file)
  }

  /** What every operation on one artifact checks first. */
  function Refused(n: Name): Option<Reply> {
    if !ValidFileName(n.file) then Some(InvalidFileName)
    else if n.session == USER_SCOPE then Some(ReservedSession)
    else None
  }

  function VersionsAt(a: Artifacts, s: Slot): set<Version> {
    set k | k in a && k.slot == s :: k.version
  }

  predicate IsLatest(a: Artifacts, s: Slot, v: Version) {
    v in VersionsAt(a, s) && forall w :: w in VersionsAt(a, s) ==> w <= v
  }

  /** Adding one to a 64-bit version wraps around, as release builds compute it. */
  function Successor(v: Version): Version {
    if v == I64_MAX then I64_MIN else v + 1
  }

  ghost predicate Chosen(a: Artifacts, s: Slot, v: Version) {
    if VersionsAt(a, s) == {} then v == 1 else exists latest: Version :: IsLatest(a, s, latest) && v == Successor(latest)
  }

  // ---- The service ----

  /** Strings in order, as Rust compares them. */
  predicate Precedes(a: string, b: string) {
    b != "" && (a == "" || a[0] < b[0] || (a[0] == b[0] && Precedes(a[1..], b[1..])))
  }

  lemma {:induction false} PrecedesIsTotal(a: string, b: string)
    ensures a == b || Precedes(a, b) || Precedes(b, a)
  {
    if a != "" && b != "" && a[0] == b[0] {
      PrecedesIsTotal(a[1..], b[1..]);
      assert a == [a[0]] + a[1..] && b == [b[0]] + b[1..];
    }
  }

  lemma {:induction false} PrecedesIsTransitive(a: string, b: string, c: string)
    requires Precedes(a, b) && Precedes(b, c)
    ensures Precedes(a, c)
  {
    if a != "" && a[0] == b[0] == c[0] {
      PrecedesIsTransitive(a[1..], b[1..], c[1..]);
    }
  }

  method FirstName(names: set<string>) returns (first: string)
    requires names != {}
    ensures first in names && forall n :: n in names ==> n == first || Precedes(first, n)
  {
    first :| first in names;
    var todo := names - {first};
    while todo != {}
      invariant todo <= names && first in names
      invariant forall n :: n in names && n !in todo ==> n == first || Precedes(first, n)
    {
      var n :| n in todo;
      PrecedesIsTotal(first, n);
      if Precedes(n, first) {
        forall m | m in names && m !in todo ensures m == n || Precedes(n, m) {
          if m != first {
            PrecedesIsTransitive(n, first, m);
          }
        }
        first := n;
      }
      todo := todo - {n};
    }
  }

  method Sorted(found: set<string>) returns (names: seq<string>)
    ensures forall n :: n in names <==> n in found
    ensures forall i, j :: 0 <= i < j < |names| ==> Precedes(names[i], names[j])
  {
    names := [];
    var todo := found;
    while todo != {}
      invariant todo <= found
      invariant forall n :: n in names <==> n in found && n !in todo
      invariant forall n, m :: n in names && m in todo ==> Precedes(n, m)
      invariant forall i, j :: 0 <= i < j < |names| ==> Precedes(names[i], names[j])
    {
      var first := FirstName(todo);
      forall i | 0 <= i < |names| ensures Precedes(names[i], first) {
        assert names[i] in names;
      }
      names := names + [first];
      todo := todo - {first};
    }
  }

  method Greatest(vs: set<Version>) returns (g: Version)
    requires vs != {}
    ensures g in vs && forall v :: v in vs ==> v <= g
  {
    g :| g in vs;
    var todo := vs - {g};
    while todo != {}
      invariant todo <= vs && g in vs && forall v :: v in vs && v !in todo ==> v <= g
    {
      var v :| v in todo;
      if g < v {
        g := v;
      }
      todo := todo - {v};
    }
  }

  function AfterDelete(a: Artifacts, n: Name, version: Option<Version>): Artifacts {
    if Refused(n).Some? then a
    else if version.Some? then a - {Key(SlotOf(n), version.value)}
    else map k | k in a && k.slot != SlotOf(n) :: a[k]
  }

  predicate Visible(k: Key, app: string, user: string, session: string) {
    k.slot.app == app && k.slot.user == user && (k.slot.session == session || k.slot.session == USER_SCOPE)
  }

  function Listed(a: Artifacts, app: string, user: string, session: string): set<string> {
    set k | k in a && Visible(k, app, user, session) :: k.slot.file
  }

  datatype Operation =
    | SaveOp(name: Name, part: Part, version: Option<Version>)
    | DeleteOp(name: Name, version: Option<Version>)

  /** What one save or delete may make of the store. */
  ghost predicate Next(a: Artifacts, op: Operation, b: Artifacts) {
    match op
    case SaveOp(n, part, version) =>
      b == a ||
      (Refused(n).None? && exists v ::
         (if version.Some? then v == version.value else Chosen(a, SlotOf(n), v)) &&
         Key(SlotOf(n), v) !in a && b == a[Key(SlotOf(n), v) := part])
    case DeleteOp(n, version) => b == AfterDelete(a, n, version)
  }

  class InMemoryArtifactService {
    var artifacts: Artifacts

    constructor ()
      ensures artifacts == map[]
    {
      artifacts := map[];
    }

    method LatestVersion(s: Slot) returns (latest: Option<Version>)
      ensures latest.None? <==> VersionsAt(artifacts, s) == {}
      ensures latest.Some? ==> IsLatest(artifacts, s, latest.value)
    {
      latest := None;
      var todo := VersionsAt(artifacts, s);
      while todo != {}
        invariant todo <= VersionsAt(artifacts, s)
        invariant latest.None? ==> todo == VersionsAt(artifacts, s)
        invariant latest.Some? ==> latest.value in VersionsAt(artifacts, s)
        invariant latest.Some? ==> forall w :: w in VersionsAt(artifacts, s) && w !in todo ==> w <= latest.value
      {
        var v :| v in todo;
        if latest.None? || latest.value < v {
          latest := Some(v);
        }
        todo := todo - {v};
      }
    }

    /** Stores a part under an explicit version, or under the one after the latest. A stored version is
        never replaced. */
    method Save(n: Name, part: Part, version: Option<Version>) returns (r: Reply)
      modifies this
      ensures Refused(n).Some? ==> r == Refused(n).value && artifacts == old(artifacts)
      ensures Refused(n).None? ==> r.Saved? || r.VersionExists?
      ensures Refused(n).None? ==>
                if version.Some? then r.version == version.value else Chosen(old(artifacts), SlotOf(n), r.version)
      ensures r.Saved? ==>
                Key(SlotOf(n), r.version) !in old(artifacts) &&
                artifacts == old(artifacts)[Key(SlotOf(n), r.version) := part]
      ensures r.VersionExists? ==> Key(SlotOf(n), r.version) in old(artifacts) && artifacts == old(artifacts)
      ensures Next(old(artifacts), SaveOp(n, part, version), artifacts)
    {
      if Refused(n).Some? {
        return Refused(n).value;
      }
      var v: Version := 1;
      if version.Some? {
        v := version.value;
      } else {
        var latest := LatestVersion(SlotOf(n));
        if latest.Some? {
          v := Successor(latest.value);
        }
      }
      var key := Key(SlotOf(n), v);
      if key in artifacts {
        return VersionExists(v);
      }
      artifacts := artifacts[key := part];
      r := Saved(v);
    }

    /** Loads an explicit version, or the latest. */
    method Load(n: Name, version: Option<Version>) returns (r: Reply)
      ensures Refused(n).Some? ==> r == Refused(n).value
      ensures Refused(n).None? && version.Some? ==>
                r == if Key(SlotOf(n), version.value) in artifacts then Loaded(artifacts[Key(SlotOf(n), version.value)]) else NotFound
      ensures Refused(n).None? && version.None? ==>
                if VersionsAt(artifacts, SlotOf(n)) == {} then r == NotFound
                else exists v :: IsLatest(artifacts, SlotOf(n), v) && Key(SlotOf(n), v) in artifacts &&
                                 r == Loaded(artifacts[Key(SlotOf(n), v)])
    {
      if Refused(n).Some? {
        return Refused(n).value;
      }
      if version.Some? {
        var key := Key(SlotOf(n), version.value);
        return if key in artifacts then Loaded(artifacts[key]) else NotFound;
      }
      var latest := LatestVersion(SlotOf(n));
      if latest.None? {
        return NotFound;
      }
      r := Loaded(artifacts[Key(SlotOf(n), latest.value)]);
    }

    /** Deletes one version, or all of them; deleting what is not there does nothing. */
    method Delete(n: Name, version: Option<Version>) returns (r: Reply)
      modifies this
      ensures artifacts == AfterDelete(old(artifacts), n, version)
      ensures r == if Refused(n).Some? then Refused(n).value else Deleted
      ensures Next(old(artifacts), DeleteOp(n, version), artifacts)
    {
      if Refused(n).Some? {
        return Refused(n).value;
      }
      if version.Some? {
        artifacts := artifacts - {Key(SlotOf(n), version.value)};
      } else {
        artifacts := map k | k in artifacts && k.slot != SlotOf(n) :: artifacts[k];
      }
      r := Deleted;
    }

    /** The names a session sees, in order: its own and the user's. */
    method List(app: string, user: string, session: string) returns (r: Reply, names: seq<string>)
      ensures r == if session == USER_SCOPE then ReservedSession else Found
      ensures r.Found? ==> forall n :: n in names <==> n in Listed(artifacts, app, user, session)
      ensures forall i, j :: 0 <= i < j < |names| ==> Precedes(names[i], names[j])
    {
      names := [];
      if session == USER_SCOPE {
        return ReservedSession, [];
      }
      var found: set<string> := {};
      var todo := artifacts.Keys;
      while todo != {}
        invariant todo <= artifacts.Keys
        invariant found == set k | k in artifacts && k !in todo && Visible(k, app, user, session) :: k.slot.file
      {
        var k :| k in todo;
        if Visible(k, app, user, session) {
          found := found + {k.slot.file};
        }
        todo := todo - {k};
      }
      names := Sorted(found);
      r := Found;
    }

    /** The stored versions of an artifact, newest number first. */
    method Versions(n: Name) returns (r: Reply, versions: seq<Version>)
      ensures Refused(n).Some? ==> r == Refused(n).value
      ensures Refused(n).None? ==> (r == NotFound <==> VersionsAt(artifacts, SlotOf(n)) == {})
      ensures Refused(n).None? ==> forall v :: v in versions <==> v in VersionsAt(artifacts, SlotOf(n))
      ensures forall i, j :: 0 <= i < j < |versions| ==> versions[i] > versions[j]
    {
      versions := [];
      if Refused(n).Some? {
        return Refused(n).value, [];
      }
      var todo := VersionsAt(artifacts, SlotOf(n));
      if todo == {} {
        return NotFound, [];
      }
      while todo != {}
        invariant todo <= VersionsAt(artifacts, SlotOf(n))
        invariant forall v :: v in versions <==> v in VersionsAt(artifacts, SlotOf(n)) - todo
        invariant forall v, w :: v in versions && w in todo ==> v > w
        invariant forall i, j :: 0 <= i < j < |versions| ==> versions[i] > versions[j]
      {
        var v := Greatest(todo);
        forall i | 0 <= i < |versions| ensures versions[i] > v {
          assert versions[i] in versions;
        }
        versions := versions + [v];
        todo := todo - {v};
      }
      r := Found;
    }
  }

  // ---- Runs ----

  /** A run: the stores `stores` before, between and after the operations. */
  ghost predicate IsRun(stores: seq<Artifacts>, ops: seq<Operation>) {
    |stores| == |ops| + 1 && forall i :: 0 <= i < |ops| ==> Next(stores[i], ops[i], stores[i + 1])
  }

  predicate Deletes(op: Operation, k: Key) {
    op.DeleteOp? && SlotOf(op.name) == k.slot && (op.version.None? || op.version == Some(k.version))
  }

  lemma NextKeeps(a: Artifacts, op: Operation, b: Artifacts, k: Key)
    requires Next(a, op, b) && k in a && !Deletes(op, k)
    ensures k in b && b[k] == a[k]
  {
  }

  /** In every run, a stored version stays, with the same content, until a delete names it. */
  lemma {:induction false} VersionsAreImmutable(stores: seq<Artifacts>, ops: seq<Operation>, i: nat, j: nat, k: Key)
    requires IsRun(stores, ops) && i <= j <= |ops| && k in stores[i]
    requires forall m :: i <= m < j ==> !Deletes(ops[m], k)
    ensures k in stores[j] && stores[j][k] == stores[i][k]
    decreases j - i
  {
    if i < j {
      NextKeeps(stores[i], ops[i], stores[i + 1], k);
      VersionsAreImmutable(stores, ops, i + 1, j, k);
    }
  }

  /** The save at step `i` stored `v`. */
  ghost predicate StoredAt(stores: seq<Artifacts>, ops: seq<Operation>, i: nat, v: Version)
    requires IsRun(stores, ops)
  {
    i < |ops| && ops[i].SaveOp? &&
    Key(SlotOf(ops[i].name), v) !in stores[i] && Key(SlotOf(ops[i].name), v) in stores[i + 1]
  }

  /** Two saves of one artifact that are both stored, with none of its versions deleted in between, get
      distinct versions, whether or not they name them. */
  lemma {:induction false} SavesGetDistinctVersions(
      stores: seq<Artifacts>, ops: seq<Operation>, i: nat, j: nat, v: Version, w: Version)
    requires IsRun(stores, ops) && i < j && StoredAt(stores, ops, i, v) && StoredAt(stores, ops, j, w)
    requires SlotOf(ops[i].name) == SlotOf(ops[j].name)
    requires forall m :: i < m < j ==> !Deletes(ops[m], Key(SlotOf(ops[i].name), v))
    ensures v != w
  {
    VersionsAreImmutable(stores, ops, i + 1, j, Key(SlotOf(ops[i].name), v));
  }

  // ---- Saving without a version ----

  lemma LatestIsUnique(a: Artifacts, s: Slot, v: Version, w: Version)
    requires IsLatest(a, s, v) && IsLatest(a, s, w)
    ensures v == w
  {
  }

  /** A save without a version is stored as the new latest version exactly when the latest number is
      not already the largest there is. */
  lemma {:induction false} AutoVersionExactly(a: Artifacts, s: Slot, latest: Version, v: Version, part: Part)
    requires IsLatest(a, s, latest) && Chosen(a, s, v)
    ensures (Key(s, v) !in a && IsLatest(a[Key(s, v) := part], s, v)) <==> latest < 0x7FFF_FFFF_FFFF_FFFF
    ensures v == if latest < 0x7FFF_FFFF_FFFF_FFFF then latest + 1 else -0x8000_0000_0000_0000
  {
    var l :| IsLatest(a, s, l) && v == Successor(l);
    LatestIsUnique(a, s, l, latest);
    var b := a[Key(s, v) := part];
    assert Key(s, v) in b && v in VersionsAt(b, s);
    assert Key(s, latest) in b && latest in VersionsAt(b, s);
    forall w | w in VersionsAt(b, s) ensures w == v || w in VersionsAt(a, s) {
      assert Key(s, w) in b;
      if w != v {
        assert Key(s, w) in a;
      }
    }
    if Key(s, v) in a {
      assert v in VersionsAt(a, s);
    }
  }

  /** A deleted number can be handed out again: after deleting the latest version, a save without a
      version takes its number exactly when the version just below it is stored, or when it was 1 and
      the only one. */
  lemma {:induction false} ReusedExactly(a: Artifacts, s: Slot, latest: Version, v: Version)
    requires IsLatest(a, s, latest) && Chosen(a - {Key(s, latest)}, s, v)
    ensures v == latest <==>
            (latest > I64_MIN && latest - 1 in VersionsAt(a, s)) || (latest == 1 && VersionsAt(a, s) == {1})
  {
    var b := a - {Key(s, latest)};
    forall w: Version ensures w in VersionsAt(b, s) <==> w in VersionsAt(a, s) && w != latest {
      assert Key(s, w) in b <==> Key(s, w) in a && w != latest;
    }
    if VersionsAt(b, s) == {} {
      assert forall w :: w in VersionsAt(a, s) ==> w == latest;
    } else {
      var l: Version :| IsLatest(b, s, l) && v == Successor(l);
      assert l < latest;
    }
  }

  // ---- Numbers over whole runs ----

  /** The number has been stored for the artifact by step `j`. */
  ghost predicate EverStored(stores: seq<Artifacts>, s: Slot, j: nat, v: Version)
    requires j < |stores|
  {
    exists i :: 0 <= i <= j && Key(s, v) in stores[i]
  }

  /** The highest number ever stored for the artifact by step `j`. */
  ghost predicate IsHighestEver(stores: seq<Artifacts>, s: Slot, j: nat, h: Version)
    requires j < |stores|
  {
    EverStored(stores, s, j, h) && forall v: Version :: EverStored(stores, s, j, v) ==> v <= h
  }

  /** No save of the artifact names a version. */
  predicate SavesAutomatically(ops: seq<Operation>, s: Slot) {
    forall i :: 0 <= i < |ops| && ops[i].SaveOp? && SlotOf(ops[i].name) == s ==> ops[i].version.None?
  }

  lemma EverStoredStep(stores: seq<Artifacts>, s: Slot, j: nat, v: Version)
    requires j + 1 < |stores|
    ensures EverStored(stores, s, j + 1, v) <==> EverStored(stores, s, j, v) || Key(s, v) in stores[j + 1]
  {
    if EverStored(stores, s, j + 1, v) {
      var i :| 0 <= i <= j + 1 && Key(s, v) in stores[i];
      assert i == j + 1 || EverStored(stores, s, j, v);
    }
  }

  /** A save without a version that is stored takes 1 or the number after the latest. */
  lemma NewNumber(a: Artifacts, op: Operation, b: Artifacts, v: Version)
    requires Next(a, op, b) && op.SaveOp? && op.version.None?
    requires Key(SlotOf(op.name), v) !in a && Key(SlotOf(op.name), v) in b
    ensures Chosen(a, SlotOf(op.name), v)
  {
  }

  lemma {:induction false} NewKeyIsSaved(a: Artifacts, op: Operation, b: Artifacts, k: Key)
    requires Next(a, op, b) && k !in a && k in b
    ensures op.SaveOp? && SlotOf(op.name) == k.slot
  {
  }

  /** One step stores at most one new number. */
  lemma OneNewKey(a: Artifacts, op: Operation, b: Artifacts, s: Slot, v: Version)
    requires Next(a, op, b) && Key(s, v) !in a && Key(s, v) in b
    ensures forall w: Version :: Key(s, w) in b && Key(s, w) !in a ==> w == v
  {
  }

  /** A number that is new to a run whose numbers are 1 to `h` is the next one. */
  lemma NextNumber(stores: seq<Artifacts>, s: Slot, j: nat, h: nat, v: Version)
    requires j < |stores| && h < I64_MAX && forall w: Version :: EverStored(stores, s, j, w) <==> 1 <= w <= h
    requires Chosen(stores[j], s, v)
    ensures EverStored(stores, s, j, v) || v == h + 1
  {
    if VersionsAt(stores[j], s) != {} {
      var l: Version :| IsLatest(stores[j], s, l) && v == Successor(l);
      assert Key(s, l) in stores[j];
      assert EverStored(stores, s, j, l);
    }
  }

  /** The numbers ever stored by saves that name no version are 1 up to some number. */
  lemma {:induction false} EverIsRange(stores: seq<Artifacts>, ops: seq<Operation>, s: Slot, j: nat) returns (h: nat)
    requires IsRun(stores, ops) && stores[0] == map[] && j <= |ops| < I64_MAX && SavesAutomatically(ops, s)
    ensures h <= j && forall v: Version :: EverStored(stores, s, j, v) <==> 1 <= v <= h
  {
    if j == 0 {
      h := 0;
    } else {
      var g := EverIsRange(stores, ops, s, j - 1);
      h := g;
      if v: Version :| Key(s, v) in stores[j] && !EverStored(stores, s, j - 1, v) {
        assert Key(s, v) !in stores[j - 1];
        assert Next(stores[j - 1], ops[j - 1], stores[j]);
        NewKeyIsSaved(stores[j - 1], ops[j - 1], stores[j], Key(s, v));
        NewNumber(stores[j - 1], ops[j - 1], stores[j], v);
        NextNumber(stores, s, j - 1, g, v);
        h := g + 1;
        OneNewKey(stores[j - 1], ops[j - 1], stores[j], s, v);
      }
      forall w: Version ensures EverStored(stores, s, j, w) <==> 1 <= w <= h {
        EverStoredStep(stores, s, j - 1, w);
        assert Key(s, w) in stores[j - 1] ==> EverStored(stores, s, j - 1, w);
      }
    }
  }

  lemma NothingStored(a: Artifacts, s: Slot)
    requires VersionsAt(a, s) == {}
    ensures forall w: Version :: Key(s, w) !in a
  {
    forall w: Version ensures Key(s, w) in a ==> w in VersionsAt(a, s) {
    }
  }

  /** Over every run from an empty store in which the artifact's saves name no version, a save hands out
      a number that was stored before exactly when the highest number ever stored has been deleted. */
  lemma {:induction false} HandedOutAgainExactly(stores: seq<Artifacts>, ops: seq<Operation>, j: nat, v: Version)
    requires IsRun(stores, ops) && stores[0] == map[] && |ops| < I64_MAX && StoredAt(stores, ops, j, v)
    requires SavesAutomatically(ops, SlotOf(ops[j].name))
    ensures var s := SlotOf(ops[j].name);
            EverStored(stores, s, j, v) <==> exists h :: IsHighestEver(stores, s, j, h) && Key(s, h) !in stores[j]
  {
    var s := SlotOf(ops[j].name);
    var h := EverIsRange(stores, ops, s, j);
    NewNumber(stores[j], ops[j], stores[j + 1], v);
    if VersionsAt(stores[j], s) == {} {
      NothingStored(stores[j], s);
      assert h >= 1 ==> IsHighestEver(stores, s, j, h);
    } else {
      var l: Version :| IsLatest(stores[j], s, l) && v == Successor(l);
      assert Key(s, l) in stores[j];
      assert EverStored(stores, s, j, l);
      assert IsHighestEver(stores, s, j, h);
      assert Key(s, h) in stores[j] ==> h in VersionsAt(stores[j], s);
    }
    forall g | IsHighestEver(stores, s, j, g) ensures g == h {
    }
  }

  /** In every run, whatever versions saves name, a save without one gets a fresh number while the
      highest number ever stored is still there and not the largest. */
  lemma {:induction false} FreshWhileHighestStays(stores: seq<Artifacts>, ops: seq<Operation>, j: nat, v: Version, h: Version)
    requires IsRun(stores, ops) && StoredAt(stores, ops, j, v) && ops[j].version.None?
    requires IsHighestEver(stores, SlotOf(ops[j].name), j, h) && Key(SlotOf(ops[j].name), h) in stores[j] && h < I64_MAX
    ensures !EverStored(stores, SlotOf(ops[j].name), j, v)
  {
    var s := SlotOf(ops[j].name);
    NewNumber(stores[j], ops[j], stores[j + 1], v);
    assert h in VersionsAt(stores[j], s);
    var l: Version :| IsLatest(stores[j], s, l) && v == Successor(l);
    assert Key(s, l) in stores[j];
    assert EverStored(stores, s, j, l);
  }

  /** A run that hands a number out twice: a save, its deletion and another save. */
  lemma NumberIsReused(n: Name, first: Part, second: Part)
    requires Refused(n).None?
    ensures var k := Key(SlotOf(n), 1);
            var stores := [map[], map[k := first], map[], map[k := second]];
            var ops := [SaveOp(n, first, None), DeleteOp(n, Some(1)), SaveOp(n, second, None)];
            IsRun(stores, ops) && StoredAt(stores, ops, 0, 1) && StoredAt(stores, ops, 2, 1)
  {
    var s := SlotOf(n);
    var k := Key(s, 1);
    var none: Artifacts := map[];
    assert VersionsAt(none, s) == {};
    assert Chosen(none, s, 1);
    assert Next(none, SaveOp(n, first, None), none[k := first]);
    assert Next(none, SaveOp(n, second, None), none[k := second]);
    assert AfterDelete(none[k := first], n, Some(1)) == none;
  }

  // ---- Names and deletions ----

  /** A file name is refused when it is empty, holds a slash of either kind, is a single dot or holds two in a
      row; a session id when it is `user`. */
  lemma {:induction false} RefusedMeaning(n: Name)
    ensures Refused(n) == Some(InvalidFileName) <==>
            n.file == "" || n.file == "." || '/' in n.file || '\\' in n.file || exists a, b :: n.file == a + ".." + b
    ensures Refused(n) == Some(ReservedSession) <==> Refused(n) != Some(InvalidFileName) && n.session == "user"
    ensures Refused(n) in {None, Some(InvalidFileName), Some(ReservedSession)}
  {
    var f := n.file;
    if i :| 0 < i < |f| && f[i - 1] == '.' && f[i] == '.' {
      assert f == f[..i - 1] + ".." + f[i + 1..];
    }
    if a, b :| f == a + ".." + b {
      var i := |a| + 1;
      assert f[i - 1] == '.' && f[i] == '.';
    }
  }

  /** After a delete the version it names is gone, or every version of the artifact when it names none. Every
      other version stays as it is, and so does every other artifact. A refused delete changes nothing. */
  lemma {:induction false} DeletedIsGone(a: Artifacts, n: Name, version: Option<Version>, b: Artifacts, k: Key)
    requires Next(a, DeleteOp(n, version), b)
    ensures var named := k.slot.app == n.app && k.slot.user == n.user && k.slot.file == n.file &&
                         k.slot.session == (if "user:" <= n.file then "user" else n.session) &&
                         (version == None || version.value == k.version);
            && (Refused(n) != None ==> b == a)
            && (Refused(n) == None ==> (k in b <==> k in a && !named))
            && (k in b ==> b[k] == a[k])
  {
  }

  // ---- Scopes ----

  /** Two names share storage exactly when they are the same name for the same user of the same app and
      either the name is the user's or the session is the same. */
  lemma {:induction false} SharedSlotExactly(m: Name, n: Name)
    ensures SlotOf(m) == SlotOf(n) <==>
            m.app == n.app && m.user == n.user && m.file == n.file && ("user:" <= m.file || m.session == n.session)
  {
  }

  /** Only user-scoped names are stored in the user scope, and they are stored nowhere else. */
  predicate ScopesKept(a: Artifacts) {
    forall k :: k in a ==> (k.slot.session == USER_SCOPE <==> IsUserScoped(k.slot.file))
  }

  lemma {:induction false} ScopesStayKept(stores: seq<Artifacts>, ops: seq<Operation>, j: nat)
    requires IsRun(stores, ops) && j <= |ops| && ScopesKept(stores[0])
    ensures ScopesKept(stores[j])
  {
    if j > 0 {
      ScopesStayKept(stores, ops, j - 1);
      assert Next(stores[j - 1], ops[j - 1], stores[j]);
    }
  }

  /** In every run, a session's list is exactly its own artifacts and the user-scoped ones: because
      `user` is refused as a session id, no session's artifacts reach another session. */
  lemma {:induction false} ListIsOwnAndUsers(
      stores: seq<Artifacts>, ops: seq<Operation>, j: nat, app: string, user: string, session: string, file: string)
    requires IsRun(stores, ops) && j <= |ops| && stores[0] == map[] && session != "user"
    ensures var s := Slot(app, user, if "user:" <= file then "user" else session, file);
            file in Listed(stores[j], app, user, session) <==> exists v: Version :: Key(s, v) in stores[j]
  {
    ScopesStayKept(stores, ops, j);
    var a := stores[j];
    var s := Slot(app, user, if "user:" <= file then "user" else session, file);
    if file in Listed(a, app, user, session) {
      var k :| k in a && Visible(k, app, user, session) && k.slot.file == file;
      assert k.slot == s;
      assert Key(s, k.version) in a;
    }
    if v: Version :| Key(s, v) in a {
      assert Visible(Key(s, v), app, user, session);
    }
  }
}
