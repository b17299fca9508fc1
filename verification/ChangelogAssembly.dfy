/** What assembling a changelog guarantees: reading the result back, assembling twice, and what is
    conserved (scripts/changelog-assemble.py, `assemble`). */
module ChangelogAssembly {
  import opened TextLines
  import opened ChangelogItems
  import opened Changelog
  import opened ChangelogReadBack
  import opened Wrappers

  // ---- Merging ----

  /** The items the fragments bring to one heading, in order. */
  function Brought(fs: seq<Fragment>, k: string): seq<Item> {
    if fs == [] then [] else (if HeadingOf(fs[0]) == k then FragmentItems(fs[0]) else []) + Brought(fs[1..], k)
  }

  lemma AddItemsAppend(have: seq<Item>, a: seq<Item>, b: seq<Item>)
    ensures AddItems(have, a + b) == AddItems(AddItems(have, a), b)
    decreases |a|
  {
    if a == [] {
      assert a + b == b;
    } else {
      assert (a + b)[1..] == a[1..] + b;
      AddItemsAppend(if a[0] in have then have else have + [a[0]], a[1..], b);
    }
  }

  /** Each heading gets its own fragments' items, and no other section changes. */
  lemma AddFragmentsItems(s: Sections, fs: seq<Fragment>, k: string)
    ensures AddFragments(s, fs).extras == s.extras
    ensures AddFragments(s, fs).items.Keys == s.items.Keys
    ensures k in s.items ==> AddFragments(s, fs).items[k] == AddItems(s.items[k], Brought(fs, k))
    decreases |fs|
  {
    if fs != [] {
      AddFragmentsItems(AddFragment(s, fs[0]), fs[1..], k);
      if k in s.items {
        AddItemsAppend(s.items[k], if HeadingOf(fs[0]) == k then FragmentItems(fs[0]) else [], Brought(fs[1..], k));
      }
    }
  }

  lemma AddFragmentsAppend(s: Sections, a: seq<Fragment>, b: seq<Fragment>)
    ensures AddFragments(s, a + b) == AddFragments(AddFragments(s, a), b)
    decreases |a|
  {
    if a == [] {
      assert a + b == b;
    } else {
      assert (a + b)[1..] == a[1..] + b;
      AddFragmentsAppend(AddFragment(s, a[0]), a[1..], b);
    }
  }

  predicate AllDifferent(its: seq<Item>) {
    forall i, j :: 0 <= i < j < |its| ==> its[i] != its[j]
  }

  /** Merging keeps what was there, as it was, and appends exactly the items that are new, each once. */
  lemma {:induction false} AddItemsConserves(have: seq<Item>, more: seq<Item>)
    ensures var all := AddItems(have, more);
            && have <= all
            && (forall it :: it in all <==> it in have || it in more)
            && AllDifferent(all[|have|..])
            && (forall i :: |have| <= i < |all| ==> all[i] !in have)
    decreases |more|
  {
    if more != [] {
      var next := if more[0] in have then have else have + [more[0]];
      AddItemsConserves(next, more[1..]);
      var all := AddItems(have, more);
      assert forall it :: it in more <==> it == more[0] || it in more[1..];
      if more[0] !in have {
        assert all[|have|] == next[|have|] == more[0];
        assert all[|have|..] == [more[0]] + all[|next|..];
        forall i | |have| <= i < |all| ensures all[i] !in have {
          if i >= |next| {
            assert all[i] !in next;
            assert forall h :: h in have ==> h in next;
          }
        }
        forall i, j | 0 <= i < j < |all[|have|..]| ensures all[|have|..][i] != all[|have|..][j] {
          if i == 0 {
            assert all[|have| + j] !in next;
            assert more[0] in next;
          } else {
            assert all[|next|..][i - 1] != all[|next|..][j - 1];
          }
        }
      }
    }
  }

  lemma AddItemsNothingNew(have: seq<Item>, more: seq<Item>)
    requires forall it :: it in more ==> it in have
    ensures AddItems(have, more) == have
  {
  }

  // ---- Sections stay printable ----

  lemma FitsIsPlain(l: string)
    requires OneLine(l) && LineFits(l)
    ensures Plain(l)
  {
    if l != "" {
      assert l[0] == '-' || l[0] == ' ';
    }
  }

  lemma FragmentItemsAreGood(f: Fragment)
    requires ValidFragment(f)
    ensures GoodItems(FragmentItems(f))
  {
    var ls := FragmentLines(f);
    forall i | 0 <= i < |ls| ensures Plain(ls[i]) {
      FitsIsPlain(ls[i]);
    }
    ItemsAreGood(ls);
  }

  lemma AddItemsGood(have: seq<Item>, more: seq<Item>)
    requires GoodItems(have) && GoodItems(more)
    ensures GoodItems(AddItems(have, more))
    decreases |more|
  {
    if more != [] {
      AddItemsGood(if more[0] in have then have else have + [more[0]], more[1..]);
    }
  }

  lemma AddFragmentsGood(s: Sections, fs: seq<Fragment>)
    requires Good(s) && AllValid(fs)
    ensures Good(AddFragments(s, fs))
    decreases |fs|
  {
    if fs != [] {
      FragmentItemsAreGood(fs[0]);
      var k := HeadingOf(fs[0]);
      if k in s.items {
        AddItemsGood(s.items[k], FragmentItems(fs[0]));
      }
      AddFragmentsGood(AddFragment(s, fs[0]), fs[1..]);
    }
  }

  lemma SectionsInGood(into: Option<string>, ls: seq<string>)
    requires AllOneLine(ls) && SectionsIn(into, ls).Some?
    ensures Good(SectionsIn(into, ls).value)
  {
    var h := FindTarget(into, ls, 0);
    var n := FindRelease(ls, h + 1);
    var pieces := RegionPieces(ls, h, n);
    forall i | 0 <= i < |pieces| ensures OneLine(pieces[i]) && !IsRelease(pieces[i]) {
      if 1 <= i < 1 + (n - (h + 1)) {
        assert pieces[i] == ls[h + i];
      }
    }
    ReadIsGood(pieces);
  }

  // ---- The printed release in its place ----

  predicate Unreleased(l: string) {
    OneLine(l) && !IsRelease(l)
  }

  predicate AllUnreleased(ls: seq<string>) {
    forall i :: 0 <= i < |ls| ==> Unreleased(ls[i])
  }

  lemma PrintBlocksUnreleased(s: Sections, ks: seq<string>)
    requires forall k :: k in ks ==> k in s.items
    requires forall k :: k in ks ==> StrippedTitle(k) && GoodItems(s.items[k])
    ensures AllUnreleased(PrintBlocks(s, ks))
  {
    if ks != [] {
      var k := ks[0];
      assert k in ks;
      SpreadPlain(s.items[k]);
      assert AllUnreleased(Block(k, s.items[k]));
      if |ks| > 1 {
        PrintBlocksUnreleased(s, ks[1..]);
      }
    }
  }

  lemma PrintedUnreleased(s: Sections)
    requires Good(s)
    ensures AllUnreleased(Printed(s))
  {
    ShownKeysFacts(s);
    PrintBlocksUnreleased(s, ShownKeys(s));
  }

  lemma FindTargetIs(into: Option<string>, ls: seq<string>, i: nat, h: nat)
    requires i <= h < |ls| && IsTarget(into, ls[h])
    requires forall j :: i <= j < h ==> !IsTarget(into, ls[j])
    ensures FindTarget(into, ls, i) == h
    decreases h - i
  {
    if i < h {
      FindTargetIs(into, ls, i + 1, h);
    }
  }

  lemma FindReleaseIs(ls: seq<string>, i: nat, n: nat)
    requires i <= n <= |ls| && (n < |ls| ==> IsRelease(ls[n]))
    requires forall j :: i <= j < n ==> !IsRelease(ls[j])
    ensures FindRelease(ls, i) == n
    decreases n - i
  {
    if i < n {
      FindReleaseIs(ls, i + 1, n);
    }
  }

  lemma SplicedLine(ls: seq<string>, h: nat, n: nat, p: seq<string>, i: nat)
    requires h < n <= |ls| && AllOneLine(ls) && AllUnreleased(p)
    requires i < |Spliced(ls, h, n, p)|
    ensures OneLine(Spliced(ls, h, n, p)[i])
    ensures i <= h ==> Spliced(ls, h, n, p)[i] == ls[i]
    ensures h < i < h + 3 + |p| ==> !IsRelease(Spliced(ls, h, n, p)[i])
    ensures i >= h + 3 + |p| ==> Spliced(ls, h, n, p)[i] == After(ls, n)[i - (h + 3 + |p|)]
  {
    var out := Spliced(ls, h, n, p);
    var mid := [""] + p + [""];
    if h < i < h + 1 + |mid| {
      assert out[i] == mid[i - (h + 1)];
      assert AllUnreleased(mid);
    }
  }

  /** The lines the region of a spliced release ends before. */
  function SplicedEnd(ls: seq<string>, h: nat, n: nat, p: seq<string>): nat
    requires h < n <= |ls|
  {
    h + 3 + |p| + if n < |ls| then 0 else 1
  }

  lemma SplicedFinds(into: Option<string>, ls: seq<string>, h: nat, n: nat, p: seq<string>)
    requires AllOneLine(ls) && AllUnreleased(p)
    requires h < |ls| && FindTarget(into, ls, 0) == h && FindRelease(ls, h + 1) == n
    ensures AllOneLine(Spliced(ls, h, n, p))
    ensures FindTarget(into, Spliced(ls, h, n, p), 0) == h
    ensures FindRelease(Spliced(ls, h, n, p), h + 1) == SplicedEnd(ls, h, n, p) <= |Spliced(ls, h, n, p)|
  {
    var out := Spliced(ls, h, n, p);
    var m := SplicedEnd(ls, h, n, p);
    forall i | 0 <= i < |out|
      ensures OneLine(out[i])
      ensures i <= h ==> out[i] == ls[i]
      ensures h < i < m ==> !IsRelease(out[i])
      ensures i == m ==> IsRelease(out[i])
    {
      SplicedLine(ls, h, n, p, i);
    }
    FindTargetIs(into, out, 0, h);
    FindReleaseIs(out, h + 1, m);
  }

  lemma SplicedRegion(ls: seq<string>, h: nat, n: nat, p: seq<string>, q: seq<string>)
    requires h < n <= |ls|
    ensures var out, m := Spliced(ls, h, n, p), SplicedEnd(ls, h, n, p);
            && m <= |out|
            && RegionPieces(out, h, m) == ["", ""] + p + ["", ""]
            && Spliced(out, h, m, q) == Spliced(ls, h, n, q)
  {
    var out, m := Spliced(ls, h, n, p), SplicedEnd(ls, h, n, p);
    var mid := [""] + p + [""];
    assert out == ls[..h + 1] + (mid + After(ls, n));
    assert out[..h + 1] == ls[..h + 1];
    if n < |ls| {
      assert out[h + 1..m] == mid;
      assert out[m..] == ls[n..];
      assert [""] + mid + [""] == ["", ""] + p + ["", ""];
    } else {
      assert out[h + 1..m] == mid + [""];
      assert [""] + (mid + [""]) + [] == ["", ""] + p + ["", ""];
    }
  }

  /** The sections of a release found at `h`, and the lines with others in their place. */
  lemma {:induction false} SectionsAt(into: Option<string>, ls: seq<string>, h: nat, m: nat, t: Sections)
    requires h < |ls| && FindTarget(into, ls, 0) == h && m == FindRelease(ls, h + 1)
    ensures SectionsIn(into, ls) == Some(ReadSections(RegionPieces(ls, h, m)))
    ensures WithSections(into, ls, t) == Spliced(ls, h, m, Printed(t))
  {
  }

  lemma {:induction false} ReplacedLines(
      into: Option<string>, ls: seq<string>, h: nat, n: nat, p: seq<string>, q: seq<string>, s: Sections, t: Sections)
    requires AllOneLine(ls) && AllUnreleased(p) && p == Printed(s) && q == Printed(t)
    requires h < |ls| && FindTarget(into, ls, 0) == h && FindRelease(ls, h + 1) == n
    ensures WithSections(into, ls, s) != [] && AllOneLine(WithSections(into, ls, s))
    ensures SectionsIn(into, WithSections(into, ls, s)) == Some(ReadSections(["", ""] + p + ["", ""]))
    ensures WithSections(into, WithSections(into, ls, s), t) == WithSections(into, ls, t)
  {
    SplicedFinds(into, ls, h, n, p);
    SplicedRegion(ls, h, n, p, q);
    var out := Spliced(ls, h, n, p);
    assert out == WithSections(into, ls, s);
    SectionsAt(into, out, h, SplicedEnd(ls, h, n, p), t);
  }

  /** Replacing a release's sections leaves it at the same heading, with the printed text as its
      region, and with the same lines before and after. */
  lemma {:induction false} ReplacedAgain(into: Option<string>, ls: seq<string>, s: Sections, t: Sections)
    requires AllOneLine(ls) && SectionsIn(into, ls).Some? && Good(s)
    ensures AllOneLine(WithSections(into, ls, s)) && WithSections(into, ls, s) != []
    ensures SectionsIn(into, WithSections(into, ls, s)) == Some(ReadSections(PrintedPieces(s)))
    ensures WithSections(into, WithSections(into, ls, s), t) == WithSections(into, ls, t)
  {
    var h := FindTarget(into, ls, 0);
    var n := FindRelease(ls, h + 1);
    PrintedUnreleased(s);
    ReplacedLines(into, ls, h, n, Printed(s), Printed(t), s, t);
  }

  // ---- The sections a text holds ----

  /** The sections of the target release in a text. */
  function SectionsOfText(into: Option<string>, text: string): Option<Sections> {
    SectionsIn(into, Split(text))
  }

  /** The sections after merging fragments in, before they are printed. */
  function Merged(into: Option<string>, text: string, fs: seq<Fragment>): Sections
    requires SectionsOfText(into, text).Some?
  {
    AddFragments(SectionsOfText(into, text).value, fs)
  }

  lemma MergedGood(into: Option<string>, text: string, fs: seq<Fragment>)
    requires SectionsOfText(into, text).Some? && AllValid(fs)
    ensures Good(Merged(into, text, fs))
  {
    SectionsInGood(into, Split(text));
    AddFragmentsGood(SectionsOfText(into, text).value, fs);
  }

  predicate CanAssemble(into: Option<string>, text: string, fs: seq<Fragment>) {
    AllValid(fs) && fs != [] && SectionsOfText(into, text).Some?
  }

  /** What a second assembly starts from. */
  lemma {:induction false} SecondAssembly(into: Option<string>, text: string, fs: seq<Fragment>, gs: seq<Fragment>)
    requires CanAssemble(into, text, fs) && AllValid(gs) && gs != []
    ensures var m := Merged(into, text, fs);
            var out := Assemble(into, text, fs).text;
            && SectionsOfText(into, out) == Some(ReadSections(PrintedPieces(m)))
            && Assemble(into, out, gs) ==
               Written(Unlines(WithSections(into, Split(text), AddFragments(ReadSections(PrintedPieces(m)), gs))))
  {
    var m := Merged(into, text, fs);
    MergedGood(into, text, fs);
    var t := AddFragments(ReadSections(PrintedPieces(m)), gs);
    ReplacedAgain(into, Split(text), m, t);
    SplitUnlines(WithSections(into, Split(text), m));
  }

  // ---- Assembling twice ----

  /** No item is a bullet without text. */
  predicate NoBareBullet(s: Sections) {
    forall k :: k in s.items ==> BARE !in s.items[k]
  }

  /** `t` has the sections of `s` that are printed, and no others but empty canonical ones. */
  ghost predicate SamePrint(s: Sections, t: Sections) {
    && t.extras == Shown(s, s.extras)
    && (forall k :: k in t.items <==> k in HEADINGS || k in t.extras)
    && (forall k :: k in t.items ==> k in s.items && t.items[k] == s.items[k])
  }

  lemma {:induction false} VisibleIsSame(s: Sections)
    requires Good(s) && NoBareBullet(s)
    ensures SamePrint(s, Visible(s))
  {
    ShownAreSections(s, s.extras);
    forall k | k in Visible(s).items ensures Visible(s).items[k] == s.items[k] {
      ReadableIsAll(s.items[k]);
    }
  }

  lemma ShownSame(s: Sections, t: Sections, ks: seq<string>)
    requires forall k :: k in ks ==> k in s.items && k in t.items && s.items[k] == t.items[k]
    ensures Shown(s, ks) == Shown(t, ks)
  {
  }

  lemma ShownTwice(s: Sections, ks: seq<string>)
    ensures Shown(s, Shown(s, ks)) == Shown(s, ks)
  {
    if ks != [] {
      ShownTwice(s, ks[1..]);
      ShownAppend(s, if ks[0] in s.items && s.items[ks[0]] != [] then [ks[0]] else [], Shown(s, ks[1..]));
    }
  }

  lemma PrintBlocksSame(s: Sections, t: Sections, ks: seq<string>)
    requires forall k :: k in ks ==> k in s.items && k in t.items && s.items[k] == t.items[k]
    ensures PrintBlocks(s, ks) == PrintBlocks(t, ks)
  {
    if ks != [] {
      assert ks[0] in ks;
    }
  }

  lemma {:induction false} SamePrintPrints(s: Sections, t: Sections)
    requires Good(s) && SamePrint(s, t)
    ensures Printed(s) == Printed(t)
  {
    ShownAreSections(s, s.extras);
    ShownAppend(s, HEADINGS, s.extras);
    ShownAppend(t, HEADINGS, t.extras);
    ShownSame(s, t, HEADINGS);
    ShownSame(s, t, t.extras);
    ShownTwice(s, s.extras);
    assert ShownKeys(s) == ShownKeys(t);
    ShownAreSections(s, HEADINGS + s.extras);
    ShownAreSections(t, HEADINGS + t.extras);
    PrintBlocksSame(s, t, ShownKeys(s));
  }

  lemma HeadingIsCanonical(f: Fragment)
    ensures HeadingOf(f) in HEADINGS || HeadingOf(f) == ""
  {
    assert forall i :: 0 <= i < |HEADINGS| ==> HEADINGS[i] in HEADINGS;
  }

  lemma ShownUnchanged(s: Sections, t: Sections, ks: seq<string>)
    requires forall k :: k in ks ==> (k in s.items <==> k in t.items) && (k in s.items ==> s.items[k] == t.items[k])
    ensures Shown(s, ks) == Shown(t, ks)
  {
  }

  lemma {:induction false} OneAssembly(into: Option<string>, text: string, fs: seq<Fragment>, gs: seq<Fragment>)
    requires CanAssemble(into, text, fs) && AllValid(gs)
    ensures Assemble(into, text, fs + gs) ==
            Written(Unlines(WithSections(into, Split(text), AddFragments(Merged(into, text, fs), gs))))
  {
    AddFragmentsAppend(SectionsOfText(into, text).value, fs, gs);
    assert AllValid(fs + gs);
  }

  lemma MergedTwice(s: Sections, fs: seq<Fragment>)
    ensures AddFragments(AddFragments(s, fs), fs) == AddFragments(s, fs)
  {
    var m := AddFragments(s, fs);
    AddFragmentsItems(s, fs, "");
    AddFragmentsItems(m, fs, "");
    forall k | k in s.items ensures AddFragments(m, fs).items[k] == m.items[k] {
      AddFragmentsItems(s, fs, k);
      AddFragmentsItems(m, fs, k);
      AddItemsConserves(s.items[k], Brought(fs, k));
      AddItemsNothingNew(m.items[k], Brought(fs, k));
    }
    assert AddFragments(m, fs).items == m.items;
  }

  // ---- Conservation ----

  lemma SplicedText(ls: seq<string>, h: nat, n: nat, p: seq<string>)
    requires h < n <= |ls|
    ensures Unlines(Spliced(ls, h, n, p)) ==
            Unlines(ls[..h + 1]) + "\n" + Unlines([""] + p + [""]) + "\n" + Unlines(After(ls, n))
  {
    var mid := [""] + p + [""];
    JoinAppend(ls[..h + 1], mid, "\n");
    JoinAppend(ls[..h + 1] + mid, After(ls, n), "\n");
  }

  lemma PrefixOfText(ls: seq<string>, h: nat)
    requires 0 < h <= |ls|
    ensures Unlines(ls[..h]) <= Unlines(ls)
  {
    if h < |ls| {
      JoinAppend(ls[..h], ls[h..], "\n");
      assert ls[..h] + ls[h..] == ls;
    } else {
      assert ls[..h] == ls;
    }
  }

  lemma SuffixOfText(ls: seq<string>, n: nat)
    requires 0 < n < |ls|
    ensures var after := Unlines(ls[n..]);
            |after| <= |Unlines(ls)| && Unlines(ls)[|Unlines(ls)| - |after|..] == after
  {
    JoinAppend(ls[..n], ls[n..], "\n");
    assert ls[..n] + ls[n..] == ls;
  }

  lemma {:induction false} MiddleReplaced(into: Option<string>, text: string, fs: seq<Fragment>, h: nat, n: nat)
    returns (middle: string)
    requires CanAssemble(into, text, fs) && h == FindTarget(into, Split(text), 0) && h < n <= |Split(text)|
    requires n == FindRelease(Split(text), h + 1)
    ensures Assemble(into, text, fs).text ==
            Unlines(Split(text)[..h + 1]) + "\n" + middle + "\n" + Unlines(After(Split(text), n))
  {
    var p := Printed(Merged(into, text, fs));
    SplicedText(Split(text), h, n, p);
    middle := Unlines([""] + p + [""]);
  }

  /** The text up to the end of the heading and the text from the next release on stay as they are. */
  lemma {:induction false} OutsideIsUnchanged(into: Option<string>, text: string, fs: seq<Fragment>)
    requires CanAssemble(into, text, fs)
    ensures var ls := Split(text);
            var h := FindTarget(into, ls, 0);
            var n := FindRelease(ls, h + 1);
            var before, after := Unlines(ls[..h + 1]), Unlines(After(ls, n));
            && before <= text
            && (n < |ls| ==> |after| <= |text| && text[|text| - |after|..] == after)
            && exists middle :: Assemble(into, text, fs).text == before + "\n" + middle + "\n" + after
  {
    var ls := Split(text);
    var h := FindTarget(into, ls, 0);
    var n := FindRelease(ls, h + 1);
    UnlinesSplit(text);
    PrefixOfText(ls, h + 1);
    if n < |ls| {
      SuffixOfText(ls, n);
    }
    var middle := MiddleReplaced(into, text, fs, h, n);
  }

  /** A section holds what it held, in order and multiplicity, then each item the fragments bring to it
      that it did not hold, once, and nothing else. */
  ghost predicate GainsOnly(was: Sections, fs: seq<Fragment>, now: Sections, k: string) {
    && k in was.items && k in now.items
    && was.items[k] <= now.items[k]
    && AllDifferent(now.items[k][|was.items[k]|..])
    && (forall i :: |was.items[k]| <= i < |now.items[k]| ==> now.items[k][i] !in was.items[k])
    && forall it :: it in now.items[k] <==> it in was.items[k] || it in Brought(fs, k)
  }

  /** `now` has every section `was` had with items, each as it was with its fragments' items added, and
      no other but the canonical ones. */
  ghost predicate Conserves(was: Sections, fs: seq<Fragment>, now: Sections) {
    && now.extras == Shown(was, was.extras)
    && (forall k :: k in now.items <==> k in HEADINGS || k in now.extras)
    && forall k :: k in now.items ==> GainsOnly(was, fs, now, k)
  }

  /** Merging gives every section exactly its fragments' new items, whatever its items and headings. */
  lemma MergingGainsOnly(was: Sections, fs: seq<Fragment>, k: string)
    requires k in was.items
    ensures GainsOnly(was, fs, AddFragments(was, fs), k)
  {
    AddFragmentsItems(was, fs, k);
    AddItemsConserves(was.items[k], Brought(fs, k));
  }

  lemma BroughtNothing(fs: seq<Fragment>, k: string)
    requires k !in HEADINGS && k != ""
    ensures Brought(fs, k) == []
  {
    if fs != [] {
      HeadingIsCanonical(fs[0]);
      BroughtNothing(fs[1..], k);
    }
  }

  lemma MergingKeepsExtras(was: Sections, fs: seq<Fragment>)
    requires Good(was)
    ensures AddFragments(was, fs).extras == was.extras
    ensures Shown(AddFragments(was, fs), was.extras) == Shown(was, was.extras)
  {
    var m := AddFragments(was, fs);
    AddFragmentsItems(was, fs, "");
    forall k | k in was.extras ensures k in was.items && m.items[k] == was.items[k] {
      AddFragmentsItems(was, fs, k);
      BroughtNothing(fs, k);
    }
    ShownUnchanged(was, m, was.extras);
  }

  /** Read back, the result has the sections of the merge, when every bullet has text or a continuation
      and every heading a title. */
  lemma {:induction false} AssemblyConservesItems(into: Option<string>, text: string, fs: seq<Fragment>)
    requires CanAssemble(into, text, fs)
    requires Titled(Merged(into, text, fs)) && NoBareBullet(Merged(into, text, fs))
    ensures var read := SectionsOfText(into, Assemble(into, text, fs).text);
            read.Some? && Conserves(SectionsOfText(into, text).value, fs, read.value)
  {
    var was := SectionsOfText(into, text).value;
    var m := Merged(into, text, fs);
    SecondAssembly(into, text, fs, fs);
    MergedGood(into, text, fs);
    SectionsInGood(into, Split(text));
    PrintedReadsBack(m);
    VisibleIsSame(m);
    MergingKeepsExtras(was, fs);
    forall k | k in Visible(m).items ensures GainsOnly(was, fs, Visible(m), k) {
      AddFragmentsItems(was, fs, k);
      MergingGainsOnly(was, fs, k);
    }
  }
}
