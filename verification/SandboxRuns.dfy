/** File operations under a layered sandbox policy (adk-sandbox/README.md, "Read-Only Paths Inside a
    Writable Path"): what either enforcer permits, and what no run of permitted operations changes.

    Operations name resolved paths: the kernel follows symbolic links before it asks the enforcer. */
module SandboxRuns {
  import opened Layering
  import opened Wrappers

  // ---- The file tree ----

  datatype Kind = Directory | File | Symlink

  /** A name leads to a file by its identity, so two names can lead to one file. */
  datatype Node = Node(kind: Kind, id: nat)

  type Content = string

  datatype Tree = Tree(names: map<Path, Node>, data: map<nat, Content>)

  datatype Operation =
    | Write(path: Path, content: Content)
    | Create(path: Path, kind: Kind, id: nat, content: Content)
    | Remove(path: Path)
    | Rename(src: Path, dst: Path)
    | HardLink(src: Path, dst: Path)

  predicate IsDirectory(t: Tree, p: Path) {
    p in t.names && t.names[p].kind == Directory
  }

  predicate NothingBeneath(t: Tree, p: Path) {
    forall q :: q in t.names && p <= q ==> q == p
  }

  /** A new name can be made at `p`: its directory exists. */
  predicate HasParent(t: Tree, p: Path) {
    p != [] && IsDirectory(t, Parent(p))
  }

  /** A rename may put its source at `dst`: nothing is there, or something of its kind that is empty. */
  predicate CanReplace(t: Tree, src: Path, dst: Path)
    requires src in t.names
  {
    dst in t.names ==>
      NothingBeneath(t, dst) && (t.names[dst].kind == Directory <==> t.names[src].kind == Directory)
  }

  /** Whether the tree itself lets the operation happen. */
  predicate Possible(t: Tree, op: Operation) {
    match op
    case Write(p, _) => p in t.names && t.names[p].kind == File
    case Create(p, _, id, _) => p !in t.names && HasParent(t, p) && id !in t.data
    case Remove(p) => p in t.names && p != [] && NothingBeneath(t, p)
    case Rename(src, dst) => src in t.names && !(src <= dst) && HasParent(t, dst) && CanReplace(t, src, dst)
    case HardLink(src, dst) => src in t.names && t.names[src].kind == File && dst !in t.names && HasParent(t, dst)
  }

  function Moved(src: Path, dst: Path, p: Path): Path
    requires src <= p
  {
    dst + p[|src|..]
  }

  /** The names after a rename: everything at and beneath `src` is at and beneath `dst`. */
  function RenamedNames(names: map<Path, Node>, src: Path, dst: Path): map<Path, Node> {
    (map p | p in names && !(src <= p) && p != dst :: names[p]) +
    (map q | q in (set p | p in names && src <= p :: Moved(src, dst, p)) && Moved(dst, src, q) in names
     :: names[Moved(dst, src, q)])
  }

  function Apply(t: Tree, op: Operation): Tree
    requires Possible(t, op)
  {
    match op
    case Write(p, c) => t.(data := t.data[t.names[p].id := c])
    case Create(p, k, id, c) => Tree(t.names[p := Node(k, id)], t.data[id := c])
    case Remove(p) => t.(names := t.names - {p})
    case Rename(src, dst) => t.(names := RenamedNames(t.names, src, dst))
    case HardLink(src, dst) => t.(names := t.names[dst := t.names[src]])
  }

  // ---- What the enforcers permit ----

  datatype Enforcer = Seatbelt | Bubblewrap

  /** A policy with a listing of its pinned directories. */
  datatype Policy = Policy(entries: seq<Entry>, pins: seq<Path>)

  ghost predicate ValidPolicy(y: Policy) {
    ListsPins(y.entries, y.pins)
  }

  predicate Unlinkable(y: Policy, p: Path) {
    Writable(y.entries, p) && p !in y.pins
  }

  predicate IsMountPoint(y: Policy, p: Path) {
    exists i :: 0 <= i < |Mounts(y.entries, y.pins)| && Mounts(y.entries, y.pins)[i].path == p
  }

  /** Seatbelt matches rules by path name; linking to a file needs the right to write it. */
  predicate SeatbeltPermits(y: Policy, t: Tree, op: Operation) {
    var rules := Profile(y.entries, y.pins);
    match op
    case Write(p, _) => ProfileWrites(rules, p)
    case Create(p, _, _, _) => ProfileWrites(rules, p)
    case Remove(p) => ProfileUnlinks(rules, p)
    case Rename(src, dst) =>
      ProfileUnlinks(rules, src) && ProfileWrites(rules, dst) && (dst in t.names ==> ProfileUnlinks(rules, dst))
    case HardLink(src, dst) => ProfileWrites(rules, src) && ProfileWrites(rules, dst)
  }

  predicate MountWrites(y: Policy, p: Path) {
    ModeOf(LastCovering(Mounts(y.entries, y.pins), p)) == Some(ReadWrite)
  }

  /** A mount point is busy: it can be neither removed nor renamed nor replaced. */
  predicate MountUnlinks(y: Policy, p: Path) {
    MountWrites(y, p) && !IsMountPoint(y, p)
  }

  predicate SameMount(y: Policy, p: Path, q: Path) {
    LastCovering(Mounts(y.entries, y.pins), p) == LastCovering(Mounts(y.entries, y.pins), q)
  }

  /** bubblewrap binds mounts; neither a rename nor a hard link crosses from one to another. */
  predicate BubblewrapPermits(y: Policy, t: Tree, op: Operation) {
    match op
    case Write(p, _) => MountWrites(y, p)
    case Create(p, _, _, _) => MountWrites(y, p)
    case Remove(p) => MountUnlinks(y, p)
    case Rename(src, dst) =>
      MountUnlinks(y, src) && MountWrites(y, dst) && (dst in t.names ==> MountUnlinks(y, dst)) && SameMount(y, src, dst)
    case HardLink(src, dst) => MountWrites(y, dst) && SameMount(y, src, dst)
  }

  predicate Permits(e: Enforcer, y: Policy, t: Tree, op: Operation) {
    match e
    case Seatbelt => SeatbeltPermits(y, t, op)
    case Bubblewrap => BubblewrapPermits(y, t, op)
  }

  /** The documented rule: writing needs writable space, and a name can be taken away only in writable
      space and where no pin holds it. */
  predicate Allowed(y: Policy, t: Tree, op: Operation) {
    match op
    case Write(p, _) => Writable(y.entries, p)
    case Create(p, _, _, _) => Writable(y.entries, p)
    case Remove(p) => Unlinkable(y, p)
    case Rename(src, dst) => Unlinkable(y, src) && Writable(y.entries, dst) && (dst in t.names ==> Unlinkable(y, dst))
    case HardLink(src, dst) => Writable(y.entries, src) && Writable(y.entries, dst)
  }

  /** The Seatbelt profile permits exactly what the documented rule allows. */
  lemma {:induction false} SeatbeltIsExact(y: Policy, t: Tree, op: Operation)
    requires ValidPolicy(y)
    ensures SeatbeltPermits(y, t, op) <==> Allowed(y, t, op)
  {
    match op
    case Write(p, _) => ProfileDecides(y.entries, y.pins, p);
    case Create(p, _, _, _) => ProfileDecides(y.entries, y.pins, p);
    case Remove(p) => ProfileDecides(y.entries, y.pins, p);
    case Rename(src, dst) =>
      ProfileDecides(y.entries, y.pins, src);
      ProfileDecides(y.entries, y.pins, dst);
    case HardLink(src, dst) =>
      ProfileDecides(y.entries, y.pins, src);
      ProfileDecides(y.entries, y.pins, dst);
  }

  lemma MountPointsAre(y: Policy, p: Path)
    requires ValidPolicy(y)
    ensures IsMountPoint(y, p) <==> IsEntryPath(y.entries, p) || p in y.pins
  {
    var ms := Mounts(y.entries, y.pins);
    if IsMountPoint(y, p) {
      var i :| 0 <= i < |ms| && ms[i].path == p;
      MountsAre(y.entries, y.pins, ms[i]);
    }
    if IsEntryPath(y.entries, p) {
      var i :| 0 <= i < |y.entries| && y.entries[i].path == p;
      MountsAre(y.entries, y.pins, y.entries[i]);
      var j :| 0 <= j < |ms| && ms[j] == y.entries[i];
    } else if p in y.pins {
      MountsAre(y.entries, y.pins, Entry(p, ReadWrite));
      var j :| 0 <= j < |ms| && ms[j] == Entry(p, ReadWrite);
    }
  }

  lemma MountDecides(y: Policy, p: Path)
    requires ValidPolicy(y)
    ensures MountWrites(y, p) <==> Writable(y.entries, p)
    ensures MountUnlinks(y, p) <==> Unlinkable(y, p) && !IsEntryPath(y.entries, p)
  {
    LastMountDecides(y.entries, y.pins, p);
    MountPointsAre(y, p);
  }

  /** bubblewrap permits nothing else, and writing and creating in exactly the same places. */
  lemma {:induction false} BubblewrapIsWithin(y: Policy, t: Tree, op: Operation)
    requires ValidPolicy(y)
    ensures BubblewrapPermits(y, t, op) ==> Allowed(y, t, op)
    ensures op.Write? || op.Create? ==> (BubblewrapPermits(y, t, op) <==> Allowed(y, t, op))
  {
    match op
    case Write(p, _) => MountDecides(y, p);
    case Create(p, _, _, _) => MountDecides(y, p);
    case Remove(p) => MountDecides(y, p);
    case Rename(src, dst) =>
      MountDecides(y, src);
      MountDecides(y, dst);
    case HardLink(src, dst) =>
      MountDecides(y, src);
      MountDecides(y, dst);
  }

  /** Where the two enforcers part: bubblewrap also refuses to take away the name of an entry, which is a
      mount point, and to rename or link from one mount to another. */
  predicate StaysOnMount(y: Policy, t: Tree, op: Operation) {
    match op
    case Write(_, _) => true
    case Create(_, _, _, _) => true
    case Remove(p) => !IsEntryPath(y.entries, p)
    case Rename(src, dst) =>
      !IsEntryPath(y.entries, src) && (dst in t.names ==> !IsEntryPath(y.entries, dst)) && SameMount(y, src, dst)
    case HardLink(src, dst) => SameMount(y, src, dst)
  }

  /** bubblewrap permits exactly what Seatbelt permits that stays on one mount and off the entries. */
  lemma {:induction false} EnforcersAgreeExactly(y: Policy, t: Tree, op: Operation)
    requires ValidPolicy(y)
    ensures BubblewrapPermits(y, t, op) <==> SeatbeltPermits(y, t, op) && StaysOnMount(y, t, op)
  {
    SeatbeltIsExact(y, t, op);
    match op
    case Write(p, _) => MountDecides(y, p);
    case Create(p, _, _, _) => MountDecides(y, p);
    case Remove(p) => MountDecides(y, p);
    case Rename(src, dst) =>
      MountDecides(y, src);
      MountDecides(y, dst);
    case HardLink(src, dst) =>
      MountDecides(y, src);
      MountDecides(y, dst);
  }

  /** A policy of read-write entries alone pins nothing. */
  lemma AllWritable(es: seq<Entry>)
    requires forall e :: e in es ==> e.mode.ReadWrite?
    ensures Pinned(es) == {}
  {
    forall d ensures d !in Pinned(es) {
      PinsForIs(es, es, d);
      forall e | e in es ensures PinsOf(es, e) == {} {
        ElsewhereIs(es, e.path);
        MostSpecificIs(Elsewhere(es, e.path), e.path);
      }
    }
  }

  /** A writable entry inside a writable entry, and a tree with both directories. */
  const WS: Path := ["ws"]
  const INNER: Path := ["ws", "a"]
  const NESTED: Policy := Policy([Entry(WS, ReadWrite), Entry(INNER, ReadWrite)], [])
  const NESTED_TREE: Tree :=
    Tree(map[[] := Node(Directory, 0), WS := Node(Directory, 1), INNER := Node(Directory, 2)], map[0 := "", 1 := "", 2 := ""])

  lemma NestedPolicy()
    ensures ValidPolicy(NESTED) && IsEntryPath(NESTED.entries, INNER) && Unlinkable(NESTED, INNER)
  {
    var es := NESTED.entries;
    AllWritable(es);
    assert es[1].path == INNER && WS <= INNER;
    EffectiveIs(es, INNER, es[1]);
  }

  /** One identity is one kind of file, whatever its names. */
  predicate KindsAgree(names: map<Path, Node>) {
    forall p, q :: p in names && q in names && names[p].id == names[q].id ==> names[p].kind == names[q].kind
  }

  predicate WellFormed(t: Tree) {
    && IsDirectory(t, [])
    && (forall p :: p in t.names && p != [] ==> IsDirectory(t, Parent(p)))
    && (forall p :: p in t.names ==> t.names[p].id in t.data)
    && KindsAgree(t.names)
  }

  /** Every allowed path exists when the command is built. */
  predicate EntriesExist(y: Policy, t: Tree) {
    forall i :: 0 <= i < |y.entries| ==> y.entries[i].path in t.names
  }

  lemma NestedTree()
    ensures WellFormed(NESTED_TREE) && EntriesExist(NESTED, NESTED_TREE) && Possible(NESTED_TREE, Remove(INNER))
  {
    assert Parent(WS) == [] && Parent(INNER) == WS;
    assert INNER != WS && !(INNER <= WS);
  }

  /** Seatbelt lets the inner entry be removed, bubblewrap does not. */
  lemma EnforcersDiffer()
    ensures ValidPolicy(NESTED) && WellFormed(NESTED_TREE) && EntriesExist(NESTED, NESTED_TREE)
    ensures Possible(NESTED_TREE, Remove(INNER))
    ensures SeatbeltPermits(NESTED, NESTED_TREE, Remove(INNER)) && !BubblewrapPermits(NESTED, NESTED_TREE, Remove(INNER))
  {
    NestedPolicy();
    NestedTree();
    SeatbeltIsExact(NESTED, NESTED_TREE, Remove(INNER));
    EnforcersAgreeExactly(NESTED, NESTED_TREE, Remove(INNER));
  }

  lemma PermittedIsAllowed(e: Enforcer, y: Policy, t: Tree, op: Operation)
    requires ValidPolicy(y) && Permits(e, y, t, op)
    ensures Allowed(y, t, op)
  {
    match e
    case Seatbelt => SeatbeltIsExact(y, t, op);
    case Bubblewrap => BubblewrapIsWithin(y, t, op);
  }

  /** Either enforcer permits writing and creating exactly where the most specific entry is read-write. Seatbelt
      permits removing a name exactly there when the name is not pinned, and bubblewrap when it is no entry
      either; a rename removes its source and what it replaces. */
  lemma {:induction false} PermittedMeaning(e: Enforcer, y: Policy, t: Tree, p: Path, c: Content, k: Kind, id: nat, q: Path)
    requires ValidPolicy(y)
    ensures Permits(e, y, t, Write(p, c)) <==> EffectiveMode(y.entries, p) == Some(ReadWrite)
    ensures Permits(e, y, t, Create(p, k, id, c)) <==> EffectiveMode(y.entries, p) == Some(ReadWrite)
    ensures Permits(e, y, t, Remove(p)) <==>
            && EffectiveMode(y.entries, p) == Some(ReadWrite) && p !in Pinned(y.entries)
            && (e == Bubblewrap ==> forall i :: 0 <= i < |y.entries| ==> y.entries[i].path != p)
    ensures Permits(Seatbelt, y, t, Rename(p, q)) <==>
            && EffectiveMode(y.entries, p) == Some(ReadWrite) && p !in Pinned(y.entries)
            && EffectiveMode(y.entries, q) == Some(ReadWrite) && (q in t.names ==> q !in Pinned(y.entries))
    ensures Permits(Seatbelt, y, t, HardLink(p, q)) <==>
            EffectiveMode(y.entries, p) == Some(ReadWrite) && EffectiveMode(y.entries, q) == Some(ReadWrite)
  {
    SeatbeltIsExact(y, t, Rename(p, q));
    SeatbeltIsExact(y, t, HardLink(p, q));
    SeatbeltIsExact(y, t, Write(p, c));
    SeatbeltIsExact(y, t, Create(p, k, id, c));
    SeatbeltIsExact(y, t, Remove(p));
    BubblewrapIsWithin(y, t, Write(p, c));
    BubblewrapIsWithin(y, t, Create(p, k, id, c));
    EnforcersAgreeExactly(y, t, Remove(p));
  }

  // ---- Runs ----

  /** A refused or impossible operation changes nothing. */
  function Step(e: Enforcer, y: Policy, t: Tree, op: Operation): Tree {
    if Possible(t, op) && Permits(e, y, t, op) then Apply(t, op) else t
  }

  function Run(e: Enforcer, y: Policy, t: Tree, ops: seq<Operation>): Tree
    decreases |ops|
  {
    if ops == [] then t else Run(e, y, Step(e, y, t, ops[0]), ops[1..])
  }

  // ---- What is kept ----

  /** A path outside writable space: a read-only entry, anything beneath it, or anything uncovered. */
  predicate Protected(y: Policy, p: Path) {
    !Writable(y.entries, p)
  }

  /** A path whose name stays: a protected one, or a pinned directory. */
  predicate Fixed(y: Policy, p: Path) {
    Protected(y, p) || p in y.pins
  }

  /** No file has one name in protected space and another in writable space. */
  predicate NoSharedFile(y: Policy, t: Tree) {
    forall p, q :: p in t.names && q in t.names && t.names[p] == t.names[q] && t.names[p].kind == File ==>
      (Protected(y, p) <==> Protected(y, q))
  }

  /** `t` has the names of `was` at every fixed path and the contents of `was` at every protected one. */
  ghost predicate Keeps(y: Policy, was: Tree, t: Tree) {
    && (forall p :: Fixed(y, p) ==> (p in t.names <==> p in was.names))
    && (forall p :: Fixed(y, p) && p in t.names && p in was.names ==> t.names[p] == was.names[p])
    && (forall p :: Protected(y, p) && p in t.names && p in was.names && was.names[p].id in was.data ==>
          was.names[p].id in t.data && t.data[was.names[p].id] == was.data[was.names[p].id])
  }

  /** Every read-only entry that counts, and every pinned directory, exists. */
  ghost predicate FixedExist(y: Policy, t: Tree) {
    && (forall e :: e in y.entries && Protected(y, e.path) ==> e.path in t.names)
    && (forall d :: d in y.pins ==> d in t.names)
  }

  lemma AncestorsExist(t: Tree, p: Path, d: Path)
    requires WellFormed(t) && p in t.names && d <= p
    ensures d in t.names
  {
    if d != p {
      PrefixOfParent(d, p);
      AncestorsExist(t, Parent(p), d);
    }
  }

  lemma EntriesExistFixes(y: Policy, t: Tree)
    requires ValidPolicy(y) && WellFormed(t) && EntriesExist(y, t)
    ensures FixedExist(y, t)
  {
    var es := y.entries;
    forall d | d in y.pins ensures d in t.names {
      PinsForIs(es, es, d);
      var e :| e in es && d in PinsOf(es, e);
      var i :| 0 <= i < |es| && es[i] == e;
      if Shielded(es, e) {
        AncestorsAreWritable(es, e.path, d);
        AncestorsExist(t, e.path, d);
      }
    }
  }

  // ---- Moving writable space moves nothing protected ----

  /** Where writable space ends, a shielded read-only entry stands. */
  lemma ReadOnlyBelowWritable(es: seq<Entry>, q: Path)
    requires q != [] && Writable(es, Parent(q)) && !Writable(es, q)
    ensures exists e :: e in es && e.path == q && Shielded(es, e)
  {
    MostSpecificIs(es, Parent(q));
    MostSpecificIs(es, q);
    ParentModeIsParents(es, q);
    var up := MostSpecific(es, Parent(q)).value;
    assert up.path <= q;
    var e := MostSpecific(es, q).value;
    PrefixOfParent(e.path, q);
    assert KeyLeq(up, e) && (KeyLeq(e, up) ==> e.mode == up.mode);
  }

  /** Beneath a writable directory that is not pinned, everything is writable. */
  lemma {:induction false} AllBeneathWritable(y: Policy, src: Path, q: Path)
    requires ValidPolicy(y) && Unlinkable(y, src) && src <= q
    ensures Writable(y.entries, q)
    decreases |q|
  {
    var es := y.entries;
    if q != src {
      PrefixOfParent(src, q);
      forall d | src <= d <= q && d != q ensures Writable(es, d) {
        AllBeneathWritable(y, src, d);
      }
      if !Writable(es, q) {
        ReadOnlyBelowWritable(es, q);
        var e :| e in es && e.path == q && Shielded(es, e);
        PinsForIs(es, es, src);
        assert src in PinsOf(es, e) ==> src in y.pins;
        AllAboveAreAncestors(es, src, q);
      }
    }
  }

  /** ... and nothing beneath it is pinned. */
  lemma {:induction false} NothingBeneathPinned(y: Policy, src: Path, q: Path)
    requires ValidPolicy(y) && Unlinkable(y, src) && src <= q
    ensures q !in y.pins
  {
    var es := y.entries;
    if q in y.pins {
      PinsForIs(es, es, q);
      var e :| e in es && q in PinsOf(es, e);
      if Shielded(es, e) {
        AncestorsAreWritable(es, e.path, q);
        AllBeneathWritable(y, src, e.path);
      } else {
        ParentModeIsParents(es, q);
        PrefixOfParent(src, q);
        if src != q {
          AllBeneathWritable(y, src, Parent(q));
        }
      }
    }
  }

  lemma FreeIsWritable(y: Policy, t: Tree, dst: Path, q: Path)
    requires ValidPolicy(y) && FixedExist(y, t)
    requires Writable(y.entries, dst) && dst <= q && NothingBeneath(t, dst)
    ensures Writable(y.entries, q)
  {
    var es := y.entries;
    MostSpecificIs(es, dst);
    MostSpecificIs(es, q);
    var up := MostSpecific(es, dst).value;
    assert up.path <= q;
    var e := MostSpecific(es, q).value;
    assert IsMostSpecific(es, e.path, e);
    EffectiveIs(es, e.path, e);
    assert KeyLeq(up, e) && (e.path <= dst ==> KeyLeq(e, up));
    assert KeyLeq(e, up) ==> e.mode == up.mode;
    assert !(e.path <= dst) ==> dst <= e.path;
    assert e.mode.ReadOnly? ==> e.path in t.names;
  }

  /** Where nothing stands beneath a writable path, no path beneath it is protected or pinned. */
  lemma AllBeneathFree(y: Policy, t: Tree, dst: Path, q: Path)
    requires ValidPolicy(y) && WellFormed(t) && FixedExist(y, t)
    requires Writable(y.entries, dst) && dst <= q && NothingBeneath(t, dst)
    requires dst in t.names ==> dst !in y.pins
    ensures !Fixed(y, q)
  {
    var es := y.entries;
    FreeIsWritable(y, t, dst, q);
    assert q in y.pins ==> q in t.names;
  }

  lemma AbsentHasNothingBeneath(t: Tree, p: Path)
    requires WellFormed(t) && p !in t.names
    ensures NothingBeneath(t, p)
  {
    forall q | q in t.names ensures !(p <= q) {
      if p <= q {
        AncestorsExist(t, q, p);
      }
    }
  }

  // ---- One step keeps everything ----

  ghost predicate Invariant(y: Policy, t: Tree) {
    WellFormed(t) && NoSharedFile(y, t) && FixedExist(y, t)
  }

  lemma MovedBack(src: Path, dst: Path, p: Path)
    requires src <= p
    ensures dst <= Moved(src, dst, p) && Moved(dst, src, Moved(src, dst, p)) == p
  {
    assert Moved(src, dst, p)[|dst|..] == p[|src|..];
    assert p == src + p[|src|..];
  }

  lemma RenamedNamesAre(names: map<Path, Node>, src: Path, dst: Path, q: Path)
    requires src in names && !(src <= dst)
    ensures var r := RenamedNames(names, src, dst);
            && (dst <= q && Moved(dst, src, q) in names ==> q in r && r[q] == names[Moved(dst, src, q)])
            && (!(dst <= q && Moved(dst, src, q) in names) && q in names && !(src <= q) && q != dst ==>
                  q in r && r[q] == names[q])
            && (q in r ==> (dst <= q && Moved(dst, src, q) in names) || (q in names && !(src <= q) && q != dst))
  {
    if dst <= q && Moved(dst, src, q) in names {
      MovedBack(dst, src, q);
    }
    forall p | p in names && src <= p ensures dst <= Moved(src, dst, p) && Moved(dst, src, Moved(src, dst, p)) == p {
      MovedBack(src, dst, p);
    }
  }

  /** What lies beneath a moved directory moves with its parent. */
  lemma MovedBeneath(src: Path, dst: Path, q: Path)
    requires src <= q && q != src
    ensures src <= Parent(q) && Moved(src, dst, q) != []
    ensures Moved(src, dst, Parent(q)) == Parent(Moved(src, dst, q))
  {
    PrefixOfParent(src, q);
  }

  lemma {:induction false} MovedParent(t: Tree, src: Path, dst: Path, q: Path)
    requires WellFormed(t) && Possible(t, Rename(src, dst)) && NothingBeneath(t, dst)
    requires q != [] && dst <= q && Moved(dst, src, q) in t.names
    ensures IsDirectory(t.(names := RenamedNames(t.names, src, dst)), Parent(q))
  {
    RenamedNamesAre(t.names, src, dst, Parent(q));
    if q == dst {
      assert Parent(dst) <= dst && Parent(dst) != dst;
      assert src <= Parent(dst) ==> src <= dst;
    } else {
      PrefixOfParent(dst, q);
      MovedBeneath(dst, src, q);
    }
  }

  lemma KeptParent(t: Tree, src: Path, dst: Path, q: Path)
    requires WellFormed(t) && Possible(t, Rename(src, dst)) && NothingBeneath(t, dst)
    requires q != [] && q in t.names && !(src <= q) && q != dst
    ensures IsDirectory(t.(names := RenamedNames(t.names, src, dst)), Parent(q))
  {
    RenamedNamesAre(t.names, src, dst, Parent(q));
    assert Parent(q) <= q && Parent(q) != q;
    assert src <= Parent(q) ==> src <= q;
    assert dst <= Parent(q) ==> dst <= q;
  }

  lemma RenamedParent(t: Tree, src: Path, dst: Path, q: Path)
    requires WellFormed(t) && Possible(t, Rename(src, dst)) && NothingBeneath(t, dst)
    requires q in RenamedNames(t.names, src, dst)
    ensures var r := RenamedNames(t.names, src, dst);
            r[q].id in t.data && (q != [] ==> Parent(q) in r && r[Parent(q)].kind == Directory)
  {
    RenamedNamesAre(t.names, src, dst, q);
    if q != [] {
      if dst <= q && Moved(dst, src, q) in t.names {
        MovedParent(t, src, dst, q);
      } else {
        KeptParent(t, src, dst, q);
      }
    }
  }

  lemma RenameWellFormed(t: Tree, src: Path, dst: Path)
    requires WellFormed(t) && Possible(t, Rename(src, dst))
    ensures WellFormed(Apply(t, Rename(src, dst)))
  {
    var r := RenamedNames(t.names, src, dst);
    if dst !in t.names {
      AbsentHasNothingBeneath(t, dst);
    }
    RenamedNamesAre(t.names, src, dst, []);
    forall q | q in r ensures r[q].id in t.data && (q != [] ==> Parent(q) in r && r[Parent(q)].kind == Directory) {
      RenamedParent(t, src, dst, q);
    }
    forall p, q | p in r && q in r && r[p].id == r[q].id ensures r[p].kind == r[q].kind {
      RenamedNamesAre(t.names, src, dst, p);
      RenamedNamesAre(t.names, src, dst, q);
    }
  }

  lemma RenameKeeps(y: Policy, t: Tree, src: Path, dst: Path, q: Path)
    requires ValidPolicy(y) && Invariant(y, t) && Possible(t, Rename(src, dst)) && Allowed(y, t, Rename(src, dst))
    requires Fixed(y, q)
    ensures var r := RenamedNames(t.names, src, dst);
            (q in r <==> q in t.names) && (q in r ==> r[q] == t.names[q])
  {
    RenamedNamesAre(t.names, src, dst, q);
    if dst !in t.names {
      AbsentHasNothingBeneath(t, dst);
    }
    if dst <= q {
      AllBeneathFree(y, t, dst, q);
    }
    if src <= q {
      AllBeneathWritable(y, src, q);
      NothingBeneathPinned(y, src, q);
    }
  }

  lemma RenameSharesNothing(y: Policy, t: Tree, src: Path, dst: Path)
    requires ValidPolicy(y) && Invariant(y, t) && Possible(t, Rename(src, dst)) && Allowed(y, t, Rename(src, dst))
    ensures NoSharedFile(y, Apply(t, Rename(src, dst)))
  {
    var r := RenamedNames(t.names, src, dst);
    if dst !in t.names {
      AbsentHasNothingBeneath(t, dst);
    }
    forall q | q in r
      ensures exists p :: p in t.names && t.names[p] == r[q] && (Protected(y, p) <==> Protected(y, q))
    {
      RenamedNamesAre(t.names, src, dst, q);
      if dst <= q && Moved(dst, src, q) in t.names {
        MovedBack(dst, src, q);
        AllBeneathFree(y, t, dst, q);
        AllBeneathWritable(y, src, Moved(dst, src, q));
      }
    }
  }

  lemma NewNameIsFree(y: Policy, t: Tree, p: Path)
    requires FixedExist(y, t) && p !in t.names && Writable(y.entries, p)
    ensures !Fixed(y, p)
  {
  }

  lemma RemoveKeeps(y: Policy, t: Tree, p: Path)
    requires ValidPolicy(y) && Invariant(y, t) && Possible(t, Remove(p)) && Unlinkable(y, p)
    ensures Invariant(y, Apply(t, Remove(p))) && Keeps(y, t, Apply(t, Remove(p)))
  {
    var r := t.names - {p};
    forall q | q in r && q != [] ensures Parent(q) in r {
      assert Parent(q) <= q;
    }
  }

  lemma ProtectedIsNotWritten(y: Policy, t: Tree, p: Path, q: Path)
    requires KindsAgree(t.names) && NoSharedFile(y, t) && p in t.names && t.names[p].kind == File
    requires Writable(y.entries, p) && Protected(y, q) && q in t.names
    ensures t.names[q].id != t.names[p].id
  {
    var a, b := t.names[p], t.names[q];
    assert a.id == b.id ==> a == b;
  }

  lemma WriteKeeps(y: Policy, t: Tree, p: Path, c: Content)
    requires Invariant(y, t) && Possible(t, Write(p, c)) && Writable(y.entries, p)
    ensures Invariant(y, Apply(t, Write(p, c))) && Keeps(y, t, Apply(t, Write(p, c)))
  {
    forall q | Protected(y, q) && q in t.names ensures t.names[q].id != t.names[p].id {
      ProtectedIsNotWritten(y, t, p, q);
    }
  }

  lemma CreateKeeps(y: Policy, t: Tree, op: Operation)
    requires op.Create? && Invariant(y, t) && Possible(t, op) && Writable(y.entries, op.path)
    ensures Invariant(y, Apply(t, op)) && Keeps(y, t, Apply(t, op))
  {
    NewNameIsFree(y, t, op.path);
  }

  lemma LinkSharesNothing(y: Policy, t: Tree, src: Path, dst: Path)
    requires NoSharedFile(y, t) && src in t.names && Writable(y.entries, src) && Writable(y.entries, dst)
    ensures NoSharedFile(y, t.(names := t.names[dst := t.names[src]]))
  {
    var r := t.names[dst := t.names[src]];
    forall q | q in r
      ensures exists p :: p in t.names && t.names[p] == r[q] && (Protected(y, p) <==> Protected(y, q))
    {
      if q == dst {
        assert t.names[src] == r[q];
      }
    }
  }

  lemma LinkParents(t: Tree, src: Path, dst: Path)
    requires WellFormed(t) && Possible(t, HardLink(src, dst))
    ensures var u := Apply(t, HardLink(src, dst));
            IsDirectory(u, []) && forall q :: q in u.names && q != [] ==> IsDirectory(u, Parent(q))
  {
    var u := Apply(t, HardLink(src, dst));
    forall q | q in u.names && q != [] ensures IsDirectory(u, Parent(q)) {
      assert IsDirectory(t, Parent(q));
    }
  }

  /** Names for the same files agree on their kinds. */
  lemma NamesAgree(names: map<Path, Node>, r: map<Path, Node>)
    requires KindsAgree(names) && forall q :: q in r ==> exists p :: p in names && names[p] == r[q]
    ensures KindsAgree(r)
  {
  }

  lemma LinkWellFormed(t: Tree, src: Path, dst: Path)
    requires WellFormed(t) && Possible(t, HardLink(src, dst))
    ensures WellFormed(Apply(t, HardLink(src, dst)))
  {
    var r := t.names[dst := t.names[src]];
    assert forall q :: q in r ==> r[q].id in t.data;
    forall q | q in r ensures exists p :: p in t.names && t.names[p] == r[q] {
      if q == dst {
        assert t.names[src] == r[q];
      }
    }
    NamesAgree(t.names, r);
    LinkParents(t, src, dst);
  }

  lemma LinkKeeps(y: Policy, t: Tree, src: Path, dst: Path)
    requires Invariant(y, t) && Possible(t, HardLink(src, dst))
    requires Writable(y.entries, src) && Writable(y.entries, dst)
    ensures Invariant(y, Apply(t, HardLink(src, dst))) && Keeps(y, t, Apply(t, HardLink(src, dst)))
  {
    NewNameIsFree(y, t, dst);
    LinkWellFormed(t, src, dst);
    LinkSharesNothing(y, t, src, dst);
  }

  /** An allowed operation keeps every protected path with its content and every pinned name. */
  lemma {:induction false} AllowedKeeps(y: Policy, t: Tree, op: Operation)
    requires ValidPolicy(y) && Invariant(y, t) && Possible(t, op) && Allowed(y, t, op)
    ensures Invariant(y, Apply(t, op)) && Keeps(y, t, Apply(t, op))
  {
    match op
    case Write(p, c) => WriteKeeps(y, t, p, c);
    case Create(_, _, _, _) => CreateKeeps(y, t, op);
    case Remove(p) => RemoveKeeps(y, t, p);
    case HardLink(src, dst) => LinkKeeps(y, t, src, dst);
    case Rename(src, dst) =>
      RenameWellFormed(t, src, dst);
      RenameSharesNothing(y, t, src, dst);
      forall q | Fixed(y, q)
        ensures var r := RenamedNames(t.names, src, dst); (q in r <==> q in t.names) && (q in r ==> r[q] == t.names[q])
      {
        RenameKeeps(y, t, src, dst, q);
      }
  }

  lemma KeepsChains(y: Policy, a: Tree, b: Tree, c: Tree)
    requires Keeps(y, a, b) && Keeps(y, b, c) && WellFormed(b)
    ensures Keeps(y, a, c)
  {
  }

  lemma {:induction false} RunKeepsInvariant(e: Enforcer, y: Policy, t: Tree, ops: seq<Operation>)
    requires ValidPolicy(y) && Invariant(y, t)
    ensures Invariant(y, Run(e, y, t, ops)) && Keeps(y, t, Run(e, y, t, ops))
    decreases |ops|
  {
    if ops != [] {
      var next := Step(e, y, t, ops[0]);
      if Possible(t, ops[0]) && Permits(e, y, t, ops[0]) {
        PermittedIsAllowed(e, y, t, ops[0]);
        AllowedKeeps(y, t, ops[0]);
      }
      RunKeepsInvariant(e, y, next, ops[1..]);
      KeepsChains(y, t, next, Run(e, y, next, ops[1..]));
    }
  }

  /** A write through the other name reaches a protected file. */
  lemma {:induction false} SharedFileLeaks(e: Enforcer, y: Policy, t: Tree, p: Path, q: Path)
    requires ValidPolicy(y) && WellFormed(t) && p in t.names && q in t.names
    requires t.names[p] == t.names[q] && t.names[p].kind == File && Protected(y, p) && !Protected(y, q)
    ensures exists ops :: !Keeps(y, t, Run(e, y, t, ops))
  {
    var op := Write(q, t.data[t.names[p].id] + "!");
    SeatbeltIsExact(y, t, op);
    BubblewrapIsWithin(y, t, op);
    assert Permits(e, y, t, op);
    assert [op][1..] == [];
    assert Run(e, y, t, [op]) == Apply(t, op);
    assert !Keeps(y, t, Run(e, y, t, [op]));
  }

  /** Under either enforcer, no run changes what is at or beneath a read-only entry, takes the entry
      from its path, or renames a directory above it, exactly when no protected file has another name
      in writable space to begin with. */
  lemma {:induction false} RunsKeepProtectedExactly(e: Enforcer, y: Policy, t: Tree)
    requires ValidPolicy(y) && WellFormed(t) && EntriesExist(y, t)
    ensures (forall ops :: Keeps(y, t, Run(e, y, t, ops))) <==> NoSharedFile(y, t)
  {
    EntriesExistFixes(y, t);
    if NoSharedFile(y, t) {
      forall ops ensures Keeps(y, t, Run(e, y, t, ops)) {
        RunKeepsInvariant(e, y, t, ops);
      }
    } else {
      var p, q :| p in t.names && q in t.names && t.names[p] == t.names[q] && t.names[p].kind == File
                  && Protected(y, p) && !Protected(y, q);
      SharedFileLeaks(e, y, t, p, q);
    }
  }

  // ---- Read-only directories keep their names ----

  lemma {:induction false} NamesInReadOnlyAreFixed(y: Policy, q: Path)
    requires ValidPolicy(y) && q != [] && EffectiveMode(y.entries, Parent(q)) == Some(ReadOnly)
    ensures Fixed(y, q)
  {
    var es := y.entries;
    if Writable(es, q) {
      MostSpecificIs(es, q);
      var e := MostSpecific(es, q).value;
      if e.path != q {
        PrefixOfParent(e.path, q);
        forall f | f in es && f.path <= Parent(q) ensures KeyLeq(f, e) {
          PrefixOfParent(f.path, q);
        }
        EffectiveIs(es, Parent(q), e);
      } else {
        PinnedMeaning(es, q);
        assert IsIsland(es, q);
      }
    }
  }

  /** Over every run, no name directly inside a read-only directory appears, disappears or is moved, not
      even that of a writable directory in it. */
  lemma {:induction false} ReadOnlyDirectoriesKeepNames(e: Enforcer, y: Policy, t: Tree, ops: seq<Operation>, q: Path)
    requires ValidPolicy(y) && WellFormed(t) && EntriesExist(y, t) && NoSharedFile(y, t)
    requires q != [] && EffectiveMode(y.entries, Parent(q)) == Some(ReadOnly)
    ensures q in Run(e, y, t, ops).names <==> q in t.names
    ensures q in t.names ==> Run(e, y, t, ops).names[q] == t.names[q]
  {
    EntriesExistFixes(y, t);
    RunKeepsInvariant(e, y, t, ops);
    NamesInReadOnlyAreFixed(y, q);
  }
}
