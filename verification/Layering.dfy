/** How a sandbox policy's nested allowed paths are layered for an enforcer
    (adk-sandbox/src/sandbox/layering.rs), and what the two enforcers make of the layers
    (macos.rs, linux.rs): both give every path the access of its most specific entry. */
module Layering {
  import opened Wrappers

  /** The components below the root; the root itself is the empty path. */
  type Path = seq<string>

  datatype Mode = ReadOnly | ReadWrite

  datatype Entry = Entry(path: Path, mode: Mode)

  function Parent(p: Path): Path
    requires p != []
  {
    p[..|p| - 1]
  }

  /** Shallower first; for one depth, read-only before read-write. */
  predicate KeyLeq(a: Entry, b: Entry) {
    |a.path| < |b.path| || (|a.path| == |b.path| && (a.mode.ReadOnly? || b.mode.ReadWrite?))
  }

  /** The entry of greatest key at or above `p`, the last one of several. */
  function MostSpecific(es: seq<Entry>, p: Path): Option<Entry> {
    if es == [] then None else
      var e := es[|es| - 1];
      var best := MostSpecific(es[..|es| - 1], p);
      if e.path <= p && (best.None? || KeyLeq(best.value, e)) then Some(e) else best
  }

  function ModeOf(e: Option<Entry>): Option<Mode> {
    if e.None? then None else Some(e.value.mode)
  }

  function EffectiveMode(es: seq<Entry>, p: Path): Option<Mode> {
    ModeOf(MostSpecific(es, p))
  }

  /** The entries at paths other than `p`. */
  function Elsewhere(es: seq<Entry>, p: Path): seq<Entry> {
    if es == [] then [] else
      Elsewhere(es[..|es| - 1], p) + if es[|es| - 1].path != p then [es[|es| - 1]] else []
  }

  /** The access the most specific entry strictly above `p` grants. */
  function ParentMode(es: seq<Entry>, p: Path): Option<Mode> {
    EffectiveMode(Elsewhere(es, p), p)
  }

  predicate Writable(es: seq<Entry>, p: Path) {
    EffectiveMode(es, p) == Some(ReadWrite)
  }

  // ---- The most specific entry ----

  predicate IsMostSpecific(es: seq<Entry>, p: Path, e: Entry) {
    e in es && e.path <= p && forall f :: f in es && f.path <= p ==> KeyLeq(f, e)
  }

  lemma MostSpecificIs(es: seq<Entry>, p: Path)
    ensures match MostSpecific(es, p)
            case None => forall f :: f in es ==> !(f.path <= p)
            case Some(e) => IsMostSpecific(es, p, e)
  {
    if es != [] {
      MostSpecificIs(es[..|es| - 1], p);
      assert forall f :: f in es <==> f == es[|es| - 1] || f in es[..|es| - 1];
    }
  }

  /** Any entry of greatest key grants the effective access. */
  lemma EffectiveIs(es: seq<Entry>, p: Path, e: Entry)
    requires IsMostSpecific(es, p, e)
    ensures EffectiveMode(es, p) == Some(e.mode)
  {
    MostSpecificIs(es, p);
  }

  /** The effective access depends only on which entries the policy holds, not on their order. */
  lemma {:induction false} EffectiveIgnoresOrder(es: seq<Entry>, fs: seq<Entry>, p: Path)
    requires forall e :: e in es <==> e in fs
    ensures EffectiveMode(es, p) == EffectiveMode(fs, p)
  {
    MostSpecificIs(es, p);
    MostSpecificIs(fs, p);
  }

  /** Among the entries at or above a path, the deepest decide, and one of them is enough to make the path
      writable. */
  lemma {:induction false} EffectiveMeaning(es: seq<Entry>, p: Path)
    ensures EffectiveMode(es, p) == None <==> forall e :: e in es ==> !(e.path <= p)
    ensures EffectiveMode(es, p) == Some(ReadWrite) <==>
            exists e :: e in es && e.path <= p && e.mode == ReadWrite &&
                        forall f :: f in es && f.path <= p ==> |f.path| <= |e.path|
  {
    MostSpecificIs(es, p);
    if e :| e in es && e.path <= p && e.mode == ReadWrite && forall f :: f in es && f.path <= p ==> |f.path| <= |e.path| {
      var best := MostSpecific(es, p).value;
      assert KeyLeq(e, best);
    }
  }

  /** Two paths that the same entries cover have the same access. */
  lemma SameCovering(es: seq<Entry>, p: Path, q: Path)
    requires forall e :: e in es ==> (e.path <= p <==> e.path <= q)
    ensures EffectiveMode(es, p) == EffectiveMode(es, q)
  {
    MostSpecificIs(es, p);
    MostSpecificIs(es, q);
  }

  lemma ElsewhereIs(es: seq<Entry>, p: Path)
    ensures forall e :: e in Elsewhere(es, p) <==> e in es && e.path != p
  {
    if es != [] {
      ElsewhereIs(es[..|es| - 1], p);
      assert forall f :: f in es <==> f == es[|es| - 1] || f in es[..|es| - 1];
    }
  }

  lemma PrefixOfParent(e: Path, p: Path)
    requires p != []
    ensures e <= p && e != p <==> e <= Parent(p)
  {
    if e <= p && e != p {
      assert |e| < |p| || e == p;
    }
  }

  /** The access strictly above a path is the access of its parent. */
  lemma {:induction false} ParentModeIsParents(es: seq<Entry>, p: Path)
    ensures ParentMode(es, p) == if p == [] then None else EffectiveMode(es, Parent(p))
  {
    ElsewhereIs(es, p);
    MostSpecificIs(Elsewhere(es, p), p);
    if p != [] {
      MostSpecificIs(es, Parent(p));
      forall e | e in es ensures e.path <= p && e.path != p <==> e.path <= Parent(p) {
        PrefixOfParent(e.path, p);
      }
    }
  }

  // ---- Shields and pins ----

  /** A read-only entry inside writable space that no read-write entry for its path overrides. */
  predicate Shielded(es: seq<Entry>, e: Entry) {
    && e.mode.ReadOnly?
    && ParentMode(es, e.path) == Some(ReadWrite)
    && EffectiveMode(es, e.path) == Some(ReadOnly)
  }

  /** The writable directories directly above `p`, up to the first that is not writable. */
  function WritableAncestors(es: seq<Entry>, p: Path): set<Path> {
    if p == [] || !Writable(es, Parent(p)) then {} else {Parent(p)} + WritableAncestors(es, Parent(p))
  }

  /** The directories an entry keeps from being renamed or removed. */
  function PinsOf(es: seq<Entry>, e: Entry): set<Path> {
    if Shielded(es, e) then WritableAncestors(es, e.path)
    else if e.mode.ReadWrite? && ParentMode(es, e.path).Some? && ParentMode(es, e.path) != Some(ReadWrite) then {e.path}
    else {}
  }

  function PinsFor(es: seq<Entry>, some: seq<Entry>): set<Path> {
    if some == [] then {} else PinsFor(es, some[..|some| - 1]) + PinsOf(es, some[|some| - 1])
  }

  function Pinned(es: seq<Entry>): set<Path> {
    PinsFor(es, es)
  }

  lemma PinsForIs(es: seq<Entry>, some: seq<Entry>, d: Path)
    ensures d in PinsFor(es, some) <==> exists e :: e in some && d in PinsOf(es, e)
  {
    if some != [] {
      PinsForIs(es, some[..|some| - 1], d);
      assert forall f :: f in some <==> f == some[|some| - 1] || f in some[..|some| - 1];
    }
  }

  lemma AncestorsAreWritable(es: seq<Entry>, p: Path, d: Path)
    requires d in WritableAncestors(es, p)
    ensures Writable(es, d) && d <= p && d != p
    ensures forall q :: d <= q <= p && q != p ==> Writable(es, q)
  {
    if d != Parent(p) {
      AncestorsAreWritable(es, Parent(p), d);
    }
    forall q | d <= q <= p && q != p ensures Writable(es, q) {
      PrefixOfParent(q, p);
      assert |d| <= |q| <= |Parent(p)|;
      assert |q| == |Parent(p)| ==> q == Parent(p);
    }
  }

  /** Only writable directories are pinned. */
  lemma {:induction false} PinnedAreWritable(es: seq<Entry>, d: Path)
    requires d in Pinned(es)
    ensures Writable(es, d)
  {
    PinsForIs(es, es, d);
    var e :| e in es && d in PinsOf(es, e);
    if Shielded(es, e) {
      AncestorsAreWritable(es, e.path, d);
    } else {
      MostSpecificIs(es, d);
    }
  }

  lemma AllAboveAreAncestors(es: seq<Entry>, d: Path, p: Path)
    requires d <= p && d != p
    requires forall q :: d <= q <= p && q != p ==> Writable(es, q)
    ensures d in WritableAncestors(es, p)
  {
    PrefixOfParent(d, p);
    assert Writable(es, Parent(p));
    if d != Parent(p) {
      AllAboveAreAncestors(es, d, Parent(p));
    }
  }

  /** A read-write entry directly inside a read-only directory. */
  ghost predicate IsIsland(es: seq<Entry>, d: Path) {
    d != [] && Entry(d, ReadWrite) in es && EffectiveMode(es, Parent(d)) == Some(ReadOnly)
  }

  /** A read-only entry that counts lies beneath `d`, and all between them is writable. */
  ghost predicate LeadsToReadOnly(es: seq<Entry>, d: Path) {
    exists p :: d <= p && d != p && Entry(p, ReadOnly) in es && EffectiveMode(es, p) == Some(ReadOnly) &&
                forall q :: d <= q <= p && q != p ==> EffectiveMode(es, q) == Some(ReadWrite)
  }

  lemma OtherMode(m: Option<Mode>)
    requires m.Some? && m != Some(ReadWrite)
    ensures m == Some(ReadOnly)
  {
    match m.value
    case ReadOnly =>
    case ReadWrite =>
  }

  lemma {:induction false} PinsOfMeaning(es: seq<Entry>, e: Entry, d: Path)
    requires e in es && d in PinsOf(es, e)
    ensures IsIsland(es, d) || LeadsToReadOnly(es, d)
  {
    ParentModeIsParents(es, e.path);
    assert e == Entry(e.path, e.mode);
    if Shielded(es, e) {
      AncestorsAreWritable(es, e.path, d);
      var p := e.path;
      assert Entry(p, ReadOnly) in es && EffectiveMode(es, p) == Some(ReadOnly);
      forall q | d <= q <= p && q != p ensures EffectiveMode(es, q) == Some(ReadWrite) {
        assert Writable(es, q);
      }
    } else {
      assert e == Entry(d, ReadWrite);
      OtherMode(ParentMode(es, d));
    }
  }

  /** Exactly these directories are pinned: the writable ones above a read-only entry, up to the end of the
      writable space it lies in, and the read-write entries directly inside read-only space. */
  lemma {:induction false} PinnedMeaning(es: seq<Entry>, d: Path)
    ensures d in Pinned(es) <==> IsIsland(es, d) || LeadsToReadOnly(es, d)
  {
    PinsForIs(es, es, d);
    if d in Pinned(es) {
      var e :| e in es && d in PinsOf(es, e);
      PinsOfMeaning(es, e, d);
    }
    if IsIsland(es, d) {
      ParentModeIsParents(es, d);
      assert d in PinsOf(es, Entry(d, ReadWrite));
    }
    if LeadsToReadOnly(es, d) {
      var p :| d <= p && d != p && Entry(p, ReadOnly) in es && EffectiveMode(es, p) == Some(ReadOnly) &&
               forall q :: d <= q <= p && q != p ==> EffectiveMode(es, q) == Some(ReadWrite);
      AllAboveAreAncestors(es, d, p);
      ParentModeIsParents(es, p);
      PrefixOfParent(d, p);
      assert Parent(p) <= p;
      assert d in PinsOf(es, Entry(p, ReadOnly));
    }
  }

  // ---- Sorting ----

  predicate SortedByKey(es: seq<Entry>) {
    forall i, j :: 0 <= i < j < |es| ==> KeyLeq(es[i], es[j])
  }

  function Insert(es: seq<Entry>, e: Entry): seq<Entry> {
    if es == [] || KeyLeq(es[|es| - 1], e) then es + [e] else Insert(es[..|es| - 1], e) + [es[|es| - 1]]
  }

  /** A stable sort by key. */
  function SortByKey(es: seq<Entry>): seq<Entry> {
    if es == [] then [] else Insert(SortByKey(es[..|es| - 1]), es[|es| - 1])
  }

  lemma {:induction false} InsertHolds(es: seq<Entry>, e: Entry)
    ensures multiset(Insert(es, e)) == multiset(es) + multiset{e}
    ensures forall x :: x in Insert(es, e) <==> x == e || x in es
  {
    if es != [] && !KeyLeq(es[|es| - 1], e) {
      var rest, last := es[..|es| - 1], es[|es| - 1];
      InsertHolds(rest, e);
      assert es == rest + [last];
    }
  }

  lemma SortedWithLast(es: seq<Entry>, e: Entry)
    requires SortedByKey(es) && forall x :: x in es ==> KeyLeq(x, e)
    ensures SortedByKey(es + [e])
  {
  }

  lemma {:induction false} InsertIs(es: seq<Entry>, e: Entry)
    requires SortedByKey(es)
    ensures SortedByKey(Insert(es, e))
    ensures multiset(Insert(es, e)) == multiset(es) + multiset{e}
    ensures forall x :: x in Insert(es, e) <==> x == e || x in es
  {
    InsertHolds(es, e);
    if es != [] && !KeyLeq(es[|es| - 1], e) {
      var rest, last := es[..|es| - 1], es[|es| - 1];
      InsertIs(rest, e);
      InsertHolds(rest, e);
      forall x | x in Insert(rest, e) ensures KeyLeq(x, last) {
        if x != e {
          var i :| 0 <= i < |rest| && rest[i] == x;
        }
      }
      SortedWithLast(Insert(rest, e), last);
    } else {
      forall x | x in es ensures KeyLeq(x, e) {
        var i :| 0 <= i < |es| && es[i] == x;
      }
      SortedWithLast(es, e);
    }
  }

  lemma {:induction false} SortIs(es: seq<Entry>)
    ensures SortedByKey(SortByKey(es))
    ensures multiset(SortByKey(es)) == multiset(es)
    ensures forall x :: x in SortByKey(es) <==> x in es
  {
    if es != [] {
      var rest, last := es[..|es| - 1], es[|es| - 1];
      SortIs(rest);
      InsertIs(SortByKey(rest), last);
      assert es == rest + [last];
    }
  }

  // ---- The layers ----

  datatype Layer = Layer(path: Path, mode: Mode, shielded: bool)

  function LayersOf(es: seq<Entry>, ordered: seq<Entry>): seq<Layer> {
    seq(|ordered|, i requires 0 <= i < |ordered| =>
      Layer(ordered[i].path, ordered[i].mode, Shielded(es, ordered[i])))
  }

  /** `path.ancestors().skip(1).take_while(writable)` */
  method TakeWritableAncestors(es: seq<Entry>, p: Path) returns (dirs: set<Path>)
    ensures dirs == WritableAncestors(es, p)
  {
    dirs := {};
    var q := p;
    while q != [] && Writable(es, Parent(q))
      invariant WritableAncestors(es, p) == dirs + WritableAncestors(es, q)
      decreases |q|
    {
      q := Parent(q);
      dirs := dirs + {q};
    }
  }

  /** One entry's layer, and the directories it pins. */
  method NewLayer(es: seq<Entry>, entry: Entry) returns (layer: Layer, pins: set<Path>)
    ensures layer == Layer(entry.path, entry.mode, Shielded(es, entry))
    ensures pins == PinsOf(es, entry)
  {
    var enclosing := ParentMode(es, entry.path);
    var shielded := entry.mode.ReadOnly? && enclosing == Some(ReadWrite) && EffectiveMode(es, entry.path) == Some(ReadOnly);
    pins := {};
    if shielded {
      pins := TakeWritableAncestors(es, entry.path);
    } else if entry.mode.ReadWrite? && enclosing.Some? && enclosing != Some(ReadWrite) {
      pins := {entry.path};
    }
    layer := Layer(entry.path, entry.mode, shielded);
  }

  lemma LayersOneMore(es: seq<Entry>, ordered: seq<Entry>, entry: Entry)
    ensures LayersOf(es, ordered + [entry]) ==
            LayersOf(es, ordered) + [Layer(entry.path, entry.mode, Shielded(es, entry))]
    ensures PinsFor(es, ordered + [entry]) == PinsFor(es, ordered) + PinsOf(es, entry)
  {
    assert (ordered + [entry])[..|ordered|] == ordered;
  }

  lemma PinsForSorted(es: seq<Entry>)
    ensures PinsFor(es, SortByKey(es)) == Pinned(es)
  {
    SortIs(es);
    forall d ensures d in PinsFor(es, SortByKey(es)) <==> d in Pinned(es) {
      PinsForIs(es, SortByKey(es), d);
      PinsForIs(es, es, d);
    }
  }

  /** `Layering::new`: the layers shallowest first, and the directories to pin. */
  method NewLayering(es: seq<Entry>) returns (layers: seq<Layer>, pinned: set<Path>)
    ensures layers == LayersOf(es, SortByKey(es))
    ensures pinned == Pinned(es)
  {
    var ordered := SortByKey(es);
    layers, pinned := [], {};
    for i := 0 to |ordered|
      invariant layers == LayersOf(es, ordered[..i])
      invariant pinned == PinsFor(es, ordered[..i])
    {
      var entry := ordered[i];
      assert ordered[..i + 1] == ordered[..i] + [entry];
      LayersOneMore(es, ordered[..i], entry);
      var layer, pins := NewLayer(es, entry);
      layers := layers + [layer];
      pinned := pinned + pins;
    }
    assert ordered[..|ordered|] == ordered;
    PinsForSorted(es);
  }

  // ---- bubblewrap: the last mount over a path ----

  ghost predicate ListsPins(es: seq<Entry>, pins: seq<Path>) {
    forall d :: d in pins <==> d in Pinned(es)
  }

  predicate IsEntryPath(es: seq<Entry>, d: Path) {
    exists i :: 0 <= i < |es| && es[i].path == d
  }

  /** A read-write bind of each pinned directory that is no entry. */
  function PinMounts(es: seq<Entry>, pins: seq<Path>): seq<Entry> {
    if pins == [] then [] else
      (if IsEntryPath(es, pins[0]) then [] else [Entry(pins[0], ReadWrite)]) + PinMounts(es, pins[1..])
  }

  /** The mounts in order: every entry and every pinned directory, shallowest first. */
  function Mounts(es: seq<Entry>, pins: seq<Path>): seq<Entry> {
    SortByKey(SortByKey(es) + PinMounts(es, pins))
  }

  /** The last mount made over `p`. */
  function LastCovering(mounts: seq<Entry>, p: Path): Option<Entry> {
    if mounts == [] then None
    else if mounts[|mounts| - 1].path <= p then Some(mounts[|mounts| - 1])
    else LastCovering(mounts[..|mounts| - 1], p)
  }

  lemma PinMountsAre(es: seq<Entry>, pins: seq<Path>, m: Entry)
    ensures m in PinMounts(es, pins) <==> m.path in pins && m.mode.ReadWrite? && !IsEntryPath(es, m.path)
  {
    if pins != [] {
      PinMountsAre(es, pins[1..], m);
      assert forall d :: d in pins <==> d == pins[0] || d in pins[1..];
    }
  }

  lemma MountsAre(es: seq<Entry>, pins: seq<Path>, m: Entry)
    ensures m in Mounts(es, pins) <==> m in es || (m.path in pins && m.mode.ReadWrite? && !IsEntryPath(es, m.path))
  {
    SortIs(es);
    SortIs(SortByKey(es) + PinMounts(es, pins));
    PinMountsAre(es, pins, m);
  }

  lemma LastOfSorted(ms: seq<Entry>, p: Path)
    requires SortedByKey(ms)
    ensures match LastCovering(ms, p)
            case None => forall m :: m in ms ==> !(m.path <= p)
            case Some(m) => IsMostSpecific(ms, p, m)
  {
    if ms != [] {
      var rest, last := ms[..|ms| - 1], ms[|ms| - 1];
      LastOfSorted(rest, p);
      assert ms == rest + [last];
      forall m | m in ms ensures KeyLeq(m, last) {
        var i :| 0 <= i < |ms| && ms[i] == m;
      }
    }
  }

  /** The last mount over a path gives it the access of its most specific entry, whatever order the
      policy lists the entries in and the pinned directories come in. */
  lemma {:induction false} LastMountDecides(es: seq<Entry>, pins: seq<Path>, p: Path)
    requires ListsPins(es, pins)
    ensures ModeOf(LastCovering(Mounts(es, pins), p)) == EffectiveMode(es, p)
  {
    var ms := Mounts(es, pins);
    SortIs(SortByKey(es) + PinMounts(es, pins));
    LastOfSorted(ms, p);
    MostSpecificIs(es, p);
    forall e | e in es ensures e in ms {
      MountsAre(es, pins, e);
    }
    match LastCovering(ms, p)
    case None =>
    case Some(m) =>
      MountsAre(es, pins, m);
      if m in es {
        EffectiveIs(es, p, m);
      } else {
        PinnedAreWritable(es, m.path);
        forall e | e in es ensures e.path <= p <==> e.path <= m.path {
          if e.path <= p {
            assert KeyLeq(e, m);
          }
        }
        SameCovering(es, p, m.path);
      }
  }

  // ---- Seatbelt: the last rule that matches ----

  datatype Rule =
    | AllowRead(path: Path)
    | AllowReadWrite(path: Path)
    | DenyWrite(path: Path)
    | DenyUnlink(literal: Path)

  function LayerRules(l: Layer): seq<Rule> {
    match l.mode
    case ReadOnly => [AllowRead(l.path)] + if l.shielded then [DenyWrite(l.path)] else []
    case ReadWrite => [AllowReadWrite(l.path)]
  }

  function AllLayerRules(ls: seq<Layer>): seq<Rule> {
    if ls == [] then [] else AllLayerRules(ls[..|ls| - 1]) + LayerRules(ls[|ls| - 1])
  }

  function PinRules(pins: seq<Path>): seq<Rule> {
    if pins == [] then [] else PinRules(pins[..|pins| - 1]) + [DenyUnlink(pins[|pins| - 1])]
  }

  /** The policy's part of the profile: the layers' rules, then the unlink denials. */
  function Profile(es: seq<Entry>, pins: seq<Path>): seq<Rule> {
    AllLayerRules(LayersOf(es, SortByKey(es))) + PinRules(pins)
  }

  /** Whether the last rule about writing that matches `p` allows it; without one it is denied. */
  predicate ProfileWrites(rules: seq<Rule>, p: Path) {
    rules != [] &&
    match rules[|rules| - 1]
    case AllowReadWrite(q) => q <= p || ProfileWrites(rules[..|rules| - 1], p)
    case DenyWrite(q) => !(q <= p) && ProfileWrites(rules[..|rules| - 1], p)
    case _ => ProfileWrites(rules[..|rules| - 1], p)
  }

  /** The same for unlinking, which the literal denials also match. */
  predicate ProfileUnlinks(rules: seq<Rule>, p: Path) {
    rules != [] &&
    match rules[|rules| - 1]
    case AllowReadWrite(q) => q <= p || ProfileUnlinks(rules[..|rules| - 1], p)
    case DenyWrite(q) => !(q <= p) && ProfileUnlinks(rules[..|rules| - 1], p)
    case DenyUnlink(q) => q != p && ProfileUnlinks(rules[..|rules| - 1], p)
    case AllowRead(_) => ProfileUnlinks(rules[..|rules| - 1], p)
  }

  predicate ProfileReads(rules: seq<Rule>, p: Path) {
    rules != [] &&
    match rules[|rules| - 1]
    case AllowRead(q) => q <= p || ProfileReads(rules[..|rules| - 1], p)
    case AllowReadWrite(q) => q <= p || ProfileReads(rules[..|rules| - 1], p)
    case _ => ProfileReads(rules[..|rules| - 1], p)
  }

  /** A layer that decides writing: it grants or denies it. */
  predicate Decides(l: Layer, p: Path) {
    l.path <= p && (l.mode.ReadWrite? || l.shielded)
  }

  /** Whether the last layer that decides writing at `p` grants it. */
  predicate LayersWrite(ls: seq<Layer>, p: Path) {
    ls != [] &&
    if Decides(ls[|ls| - 1], p) then ls[|ls| - 1].mode.ReadWrite? else LayersWrite(ls[..|ls| - 1], p)
  }

  lemma AppendLayerRules(before: seq<Rule>, l: Layer, p: Path)
    requires l.shielded ==> l.mode.ReadOnly?
    ensures var rules := before + LayerRules(l);
            && (ProfileWrites(rules, p) <==> if Decides(l, p) then l.mode.ReadWrite? else ProfileWrites(before, p))
            && (ProfileUnlinks(rules, p) <==> if Decides(l, p) then l.mode.ReadWrite? else ProfileUnlinks(before, p))
            && (ProfileReads(rules, p) <==> l.path <= p || ProfileReads(before, p))
  {
    var rules := before + LayerRules(l);
    if l.shielded {
      var mid := before + [AllowRead(l.path)];
      assert rules[..|rules| - 1] == mid && mid[..|mid| - 1] == before;
    } else {
      assert rules[..|rules| - 1] == before;
    }
  }

  lemma LayerRulesWrite(ls: seq<Layer>, p: Path)
    requires forall i :: 0 <= i < |ls| && ls[i].shielded ==> ls[i].mode.ReadOnly?
    ensures ProfileWrites(AllLayerRules(ls), p) <==> LayersWrite(ls, p)
    ensures ProfileUnlinks(AllLayerRules(ls), p) <==> LayersWrite(ls, p)
    ensures ProfileReads(AllLayerRules(ls), p) <==> exists l :: l in ls && l.path <= p
  {
    if ls != [] {
      var rest, last := ls[..|ls| - 1], ls[|ls| - 1];
      assert forall l :: l in ls <==> l in rest || l == last;
      LayerRulesWrite(rest, p);
      AppendLayerRules(AllLayerRules(rest), last, p);
    }
  }

  lemma PinRulesAfter(rules: seq<Rule>, pins: seq<Path>, p: Path)
    ensures ProfileWrites(rules + PinRules(pins), p) <==> ProfileWrites(rules, p)
    ensures ProfileUnlinks(rules + PinRules(pins), p) <==> ProfileUnlinks(rules, p) && p !in pins
    ensures ProfileReads(rules + PinRules(pins), p) <==> ProfileReads(rules, p)
  {
    var all := rules + PinRules(pins);
    if pins == [] {
      assert all == rules;
    } else {
      var rest := pins[..|pins| - 1];
      PinRulesAfter(rules, rest, p);
      assert all[..|all| - 1] == rules + PinRules(rest);
      assert pins == rest + [pins[|pins| - 1]];
    }
  }

  lemma SameDeciding(ls: seq<Layer>, p: Path, q: Path)
    requires forall l :: l in ls ==> (Decides(l, p) <==> Decides(l, q))
    ensures LayersWrite(ls, p) <==> LayersWrite(ls, q)
  {
    if ls != [] {
      var rest := ls[..|ls| - 1];
      assert forall l :: l in rest ==> l in ls;
      assert ls[|ls| - 1] in ls;
      SameDeciding(rest, p, q);
    }
  }

  lemma LastDecides(ls: seq<Layer>, os: seq<Entry>, es: seq<Entry>, p: Path, e: Entry)
    requires ls == LayersOf(es, os) && SortedByKey(os)
    requires LastCovering(os, p) == Some(e) && (e.mode.ReadWrite? || Shielded(es, e))
    ensures LayersWrite(ls, p) <==> e.mode.ReadWrite?
  {
    var k := |os| - 1;
    if !(os[k].path <= p) {
      assert ls[..k] == LayersOf(es, os[..k]);
      LastDecides(ls[..k], os[..k], es, p, e);
    }
  }

  lemma NoneDecides(ls: seq<Layer>, p: Path)
    requires forall i :: 0 <= i < |ls| ==> !Decides(ls[i], p)
    ensures !LayersWrite(ls, p)
  {
  }

  /** An unshielded read-only entry leaves writing to the entries above it. */
  lemma UnshieldedDecidesNothing(es: seq<Entry>, os: seq<Entry>, p: Path, e: Entry)
    requires forall x :: x in os <==> x in es
    requires IsMostSpecific(es, p, e) && e.mode.ReadOnly? && !Shielded(es, e)
    ensures e.path == [] ==> !LayersWrite(LayersOf(es, os), p)
    ensures e.path != [] ==> (LayersWrite(LayersOf(es, os), p) <==> LayersWrite(LayersOf(es, os), Parent(e.path)))
    ensures e.path != [] ==> !Writable(es, Parent(e.path))
  {
    var ls := LayersOf(es, os);
    assert IsMostSpecific(es, e.path, e);
    EffectiveIs(es, e.path, e);
    ParentModeIsParents(es, e.path);
    forall l | l in ls && Decides(l, p) ensures l.path != e.path && l.path <= e.path {
      var i :| 0 <= i < |ls| && ls[i] == l;
      assert os[i] in es && KeyLeq(os[i], e);
      var x := os[i];
      assert x.path == e.path && x.mode.ReadOnly? ==> x == e;
    }
    if e.path == [] {
      NoneDecides(ls, p);
    } else {
      forall l | l in ls ensures Decides(l, p) <==> Decides(l, Parent(e.path)) {
        PrefixOfParent(l.path, e.path);
      }
      SameDeciding(ls, p, Parent(e.path));
    }
  }

  lemma {:induction false} LayersDecide(es: seq<Entry>, p: Path)
    ensures LayersWrite(LayersOf(es, SortByKey(es)), p) <==> Writable(es, p)
    decreases |p|
  {
    var os := SortByKey(es);
    var ls := LayersOf(es, os);
    SortIs(es);
    LastOfSorted(os, p);
    MostSpecificIs(es, p);
    match LastCovering(os, p)
    case None =>
      NoneDecides(ls, p);
    case Some(e) =>
      assert IsMostSpecific(es, p, e);
      EffectiveIs(es, p, e);
      if e.mode.ReadWrite? || Shielded(es, e) {
        LastDecides(ls, os, es, p, e);
      } else {
        UnshieldedDecidesNothing(es, os, p, e);
        if e.path != [] {
          LayersDecide(es, Parent(e.path));
        }
      }
  }

  lemma LayersCover(es: seq<Entry>, os: seq<Entry>, p: Path)
    requires os == SortByKey(es)
    ensures (exists l :: l in LayersOf(es, os) && l.path <= p) <==> EffectiveMode(es, p).Some?
  {
    var ls := LayersOf(es, os);
    SortIs(es);
    MostSpecificIs(es, p);
    if l :| l in ls && l.path <= p {
      var i :| 0 <= i < |ls| && ls[i] == l;
      assert os[i] in es;
    }
    if e :| e in es && e.path <= p {
      assert e in os;
      var i :| 0 <= i < |os| && os[i] == e;
      assert ls[i] in ls;
    }
  }

  /** The profile lets a path be written exactly when its most specific entry is read-write, lets it be
      unlinked exactly when it is moreover not pinned, and lets it be read when any entry covers it. */
  lemma {:induction false} ProfileDecides(es: seq<Entry>, pins: seq<Path>, p: Path)
    requires ListsPins(es, pins)
    ensures ProfileWrites(Profile(es, pins), p) <==> Writable(es, p)
    ensures ProfileUnlinks(Profile(es, pins), p) <==> Writable(es, p) && p !in Pinned(es)
    ensures ProfileReads(Profile(es, pins), p) <==> EffectiveMode(es, p).Some?
  {
    var ls := LayersOf(es, SortByKey(es));
    LayerRulesWrite(ls, p);
    PinRulesAfter(AllLayerRules(ls), pins, p);
    LayersDecide(es, p);
    LayersCover(es, SortByKey(es), p);
  }
}
