/** The changelog script itself (scripts/changelog-assemble.py): `validate` and `assemble`, step by
    step on text, proved against the line-level description in `Changelog`. */
module ChangelogScript {
  import opened TextLines
  import opened ChangelogItems
  import opened Changelog
  import opened ChangelogReadBack
  import opened ChangelogAssembly
  import opened Wrappers

  // ---- Validation ----

  datatype Problem =
    | BadName(fragment: nat)
    | EmptyFragment(fragment: nat)
    | NoBullet(fragment: nat)
    | BadContinuation(fragment: nat, line: string)

  /** The message shows at most 60 characters of the line. */
  function Excerpt(l: string): string {
    if |l| <= 60 then l else l[..60]
  }

  function FirstMisfit(ls: seq<string>, i: nat): seq<Problem> {
    if ls == [] then [] else if LineFits(ls[0]) then FirstMisfit(ls[1..], i)
    else [BadContinuation(i, Excerpt(ls[0]))]
  }

  function FragmentProblems(f: Fragment, i: nat): seq<Problem> {
    if !NameMatches(f.name) then [BadName(i)] else
      var text := StripNewlines(f.text);
      (if Blank(text) then [EmptyFragment(i)] else if !(BULLET <= text) then [NoBullet(i)] else [])
      + FirstMisfit(Split(text), i)
  }

  function ProblemsFrom(fs: seq<Fragment>, i: nat): seq<Problem> {
    if fs == [] then [] else FragmentProblems(fs[0], i) + ProblemsFrom(fs[1..], i + 1)
  }

  lemma FirstMisfitExactly(ls: seq<string>, i: nat)
    ensures FirstMisfit(ls, i) == [] <==> forall j :: 0 <= j < |ls| ==> LineFits(ls[j])
  {
  }

  lemma {:induction false} ProblemsExactly(fs: seq<Fragment>, i: nat)
    ensures ProblemsFrom(fs, i) == [] <==> AllValid(fs)
  {
    if fs != [] {
      FirstMisfitExactly(FragmentLines(fs[0]), i);
      ProblemsExactly(fs[1..], i + 1);
      assert FragmentProblems(fs[0], i) == [] <==> ValidFragment(fs[0]);
      assert AllValid(fs) <==> ValidFragment(fs[0]) && AllValid(fs[1..]);
    }
  }

  method ValidateOne(f: Fragment, i: nat) returns (problems: seq<Problem>)
    ensures problems == FragmentProblems(f, i)
  {
    if !NameMatches(f.name) {
      return [BadName(i)];
    }
    problems := [];
    var text := StripNewlines(f.text);
    StripBlank(text);
    if Strip(text) == "" {
      problems := [EmptyFragment(i)];
    } else if !(BULLET <= text) {
      problems := [NoBullet(i)];
    }
    var lines := Split(text);
    for j := 0 to |lines|
      invariant problems + FirstMisfit(lines[j..], i) == FragmentProblems(f, i)
    {
      var line := lines[j];
      assert lines[j..][0] == line && lines[j..][1..] == lines[j + 1..];
      if line != "" && !IsBullet(line) && !("  " <= line) {
        problems := problems + [BadContinuation(i, Excerpt(line))];
        return;
      }
    }
  }

  /** Reports every problem; there is none exactly when every fragment is valid. */
  method Validate(fs: seq<Fragment>) returns (problems: seq<Problem>)
    ensures problems == ProblemsFrom(fs, 0)
    ensures problems == [] <==> AllValid(fs)
  {
    problems := [];
    for i := 0 to |fs|
      invariant ProblemsFrom(fs, 0) == problems + ProblemsFrom(fs[i..], i)
    {
      assert fs[i..][0] == fs[i] && fs[i..][1..] == fs[i + 1..];
      var more := ValidateOne(fs[i], i);
      problems := problems + more;
    }
    ProblemsExactly(fs, 0);
  }

  // ---- A valid fragment has a known section and an item ----

  lemma SectionNameIs(name: string, section: string)
    requires section + "." <= name && '.' !in section
    ensures SectionName(name) == section
  {
    if section == "" {
      assert name[0] == '.';
    } else {
      assert name[0] == (section + ".")[0] == section[0];
      assert section[1..] + "." <= name[1..] by {
        assert (section + ".")[1..] == section[1..] + ".";
      }
      SectionNameIs(name[1..], section[1..]);
      assert section == [section[0]] + section[1..];
    }
  }

  lemma SectionsAreWords()
    ensures forall i :: 0 <= i < |SECTIONS| ==> '.' !in SECTIONS[i]
  {
  }

  lemma ValidHeading(f: Fragment)
    requires ValidFragment(f)
    ensures HeadingOf(f) in HEADINGS
  {
    var i :| 0 <= i < |SECTIONS| && NameFits(f.name, SECTIONS[i]);
    SectionsAreWords();
    SectionNameIs(f.name, SECTIONS[i]);
    HeadingIsCanonical(f);
  }

  lemma SplitStart(p: string, s: string)
    requires p <= s && OneLine(p)
    ensures p <= Split(s)[0]
  {
    if p != "" {
      SplitStart(p[1..], s[1..]);
    }
  }

  lemma ParseKeepsOpen(lines: seq<string>, cur: seq<string>)
    requires cur != []
    ensures ParseFrom(lines, cur) != []
  {
  }

  lemma ValidHasItem(f: Fragment)
    requires ValidFragment(f)
    ensures FragmentItems(f) != []
  {
    SplitStart(BULLET, StripNewlines(f.text));
    var ls := FragmentLines(f);
    ParseKeepsOpen(ls[1..], [ls[0]]);
  }

  /** A valid fragment loses no line exactly when no indented line directly follows a blank one. */
  lemma {:induction false} FragmentKeepsLines(f: Fragment)
    requires ValidFragment(f)
    ensures var ls := FragmentLines(f);
            Trimmed(Flatten(FragmentItems(f))) == Trimmed(NonBlank(ls)) <==>
            !exists i :: 1 <= i < |ls| && Blank(ls[i - 1]) && !IsBullet(ls[i - 1]) && Continuation(ls[i])
  {
    SplitStart(BULLET, StripNewlines(f.text));
    ItemsConserveLines(FragmentLines(f));
    OrphanFollowsBlank(FragmentLines(f), false);
  }

  /** A valid fragment that loses its last line. */
  const ORPHANED: Fragment := Fragment("added.x.md", "- a\n\n  b")

  lemma OrphanedContinues()
    ensures Continuation("  b")
  {
    var l := "  b";
    assert l[2] == 'b' && !IsSpace(l[2]);
    assert l[0] == ' ';
  }

  lemma OrphanedLines()
    ensures FragmentLines(ORPHANED) == ["- a", "", "  b"]
  {
    var text, ls := ORPHANED.text, ["- a", "", "  b"];
    assert DropLeading(text, '\n') == text;
    assert text[|text| - 1] == 'b';
    assert StripNewlines(text) == text;
    assert ls[1..] == ["", "  b"] && ls[1..][1..] == ["  b"];
    assert Unlines(["", "  b"]) == "" + "\n" + "  b";
    assert Unlines(ls) == "- a" + "\n" + Unlines(["", "  b"]);
    assert text == Unlines(ls);
    SplitUnlines(ls);
  }

  lemma OrphanedName()
    ensures NameMatches("added.x.md")
  {
    var name := "added.x.md";
    assert name[6..] == "x.md";
    assert NameFits(name, SECTIONS[2]);
  }

  lemma AllFit(x: string, y: string, z: string)
    requires IsBullet(x) && y == "" && "  " <= z
    ensures forall i :: 0 <= i < 3 ==> LineFits([x, y, z][i])
  {
  }

  lemma OrphanedFits()
    ensures forall i :: 0 <= i < |FragmentLines(ORPHANED)| ==> LineFits(FragmentLines(ORPHANED)[i])
  {
    OrphanedLines();
    AllFit("- a", "", "  b");
  }

  lemma OrphanedText()
    ensures BULLET <= StripNewlines(ORPHANED.text)
  {
    var text := ORPHANED.text;
    assert text[|text| - 1] == 'b' && StripNewlines(text) == text;
  }

  lemma {:induction false} ValidByLines(f: Fragment, ls: seq<string>)
    requires NameMatches(f.name) && BULLET <= StripNewlines(f.text) && FragmentLines(f) == ls
    requires forall i :: 0 <= i < |ls| ==> LineFits(ls[i])
    ensures ValidFragment(f)
  {
    assert StripNewlines(f.text)[0] == '-';
  }

  lemma OrphanedIsValid()
    ensures ValidFragment(ORPHANED)
  {
    OrphanedName();
    OrphanedText();
    OrphanedFits();
    ValidByLines(ORPHANED, FragmentLines(ORPHANED));
  }

  /** `validate` accepts it, and `items` drops the line. */
  lemma FragmentLosesLine()
    ensures ValidFragment(ORPHANED)
    ensures Trimmed(Flatten(FragmentItems(ORPHANED))) != Trimmed(NonBlank(FragmentLines(ORPHANED)))
  {
    OrphanedIsValid();
    OrphanedLines();
    FragmentKeepsLines(ORPHANED);
    OrphanedContinues();
    var ls := FragmentLines(ORPHANED);
    assert Blank(ls[1]) && !IsBullet(ls[1]) && Continuation(ls[2]);
  }

  // ---- Every fragment's items land under its section's heading ----

  /** The heading a fragment's file name sends its items to. */
  predicate BelongsUnder(f: Fragment, k: string) {
    || ("breaking." <= f.name && k == "### Breaking")
    || ("security." <= f.name && k == "### Security")
    || ("added." <= f.name && k == "### Added")
    || ("changed." <= f.name && k == "### Changed")
    || ("fixed." <= f.name && k == "### Fixed")
  }

  lemma {:induction false} SectionStarts(section: string)
    requires section in SECTIONS
    ensures '.' !in section
    ensures section + "." == "breaking." || section + "." == "security." || section + "." == "added." ||
            section + "." == "changed." || section + "." == "fixed."
  {
  }

  /** A name starts with one section only. */
  lemma {:induction false} OneSection(name: string, section: string)
    requires section in SECTIONS && section + "." <= name
    ensures forall other :: other in SECTIONS && other + "." <= name ==> other == section
  {
    forall other | other in SECTIONS && other + "." <= name ensures other == section {
      SectionStarts(section);
      SectionStarts(other);
      SectionNameIs(name, section);
      SectionNameIs(name, other);
    }
  }

  lemma StartsExactly(name: string, section: string)
    requires section in SECTIONS && section + "." <= name
    ensures "breaking." <= name <==> section == "breaking"
    ensures "security." <= name <==> section == "security"
    ensures "added." <= name <==> section == "added"
    ensures "changed." <= name <==> section == "changed"
    ensures "fixed." <= name <==> section == "fixed"
  {
    OneSection(name, section);
    var words := SECTIONS;
    assert words[0] in words && words[1] in words && words[2] in words && words[3] in words && words[4] in words;
    assert "breaking" + "." == "breaking." && "security" + "." == "security." && "added" + "." == "added.";
    assert "changed" + "." == "changed." && "fixed" + "." == "fixed.";
  }

  lemma {:induction false} HeadingMeaning(f: Fragment, k: string)
    requires ValidFragment(f)
    ensures HeadingOf(f) == k <==> BelongsUnder(f, k)
  {
    var i :| 0 <= i < |SECTIONS| && NameFits(f.name, SECTIONS[i]);
    var section := SECTIONS[i];
    assert section in SECTIONS;
    SectionStarts(section);
    SectionNameIs(f.name, section);
    StartsExactly(f.name, section);
  }

  lemma {:induction false} BroughtMeaning(fs: seq<Fragment>, k: string, it: Item)
    requires AllValid(fs)
    ensures it in Brought(fs, k) <==> exists i :: 0 <= i < |fs| && BelongsUnder(fs[i], k) && it in FragmentItems(fs[i])
    decreases |fs|
  {
    if fs != [] {
      HeadingMeaning(fs[0], k);
      BroughtMeaning(fs[1..], k, it);
      forall i | 1 <= i < |fs| ensures fs[1..][i - 1] == fs[i] {
      }
      if i :| 0 <= i < |fs| && BelongsUnder(fs[i], k) && it in FragmentItems(fs[i]) {
        assert i > 0 ==> fs[1..][i - 1] == fs[i];
      }
    }
  }

  lemma {:induction false} FragmentIsShown(s: Sections, fs: seq<Fragment>, i: nat, k: string)
    requires Good(s) && AllValid(fs) && i < |fs| && BelongsUnder(fs[i], k)
    ensures k in s.items && k in ShownKeys(AddFragments(s, fs))
  {
    var m := AddFragments(s, fs);
    HeadingMeaning(fs[i], k);
    ValidHeading(fs[i]);
    ValidHasItem(fs[i]);
    AddFragmentsItems(s, fs, k);
    var it := FragmentItems(fs[i])[0];
    assert it in FragmentItems(fs[i]);
    BroughtMeaning(fs, k, it);
    MergingGainsOnly(s, fs, k);
    assert it in m.items[k];
    ShownKeysAre(m, HEADINGS, m.extras);
  }

  /** The written release lists Breaking, Security, Added, Changed, Fixed and then every other heading, and
      under each heading exactly what was there and the items of the fragments named for it. */
  lemma {:induction false} FragmentsLandUnderTheirHeading(into: Option<string>, text: string, fs: seq<Fragment>)
    requires CanAssemble(into, text, fs)
    ensures var was, m := SectionsOfText(into, text).value, Merged(into, text, fs);
            var ls := Split(text);
            var h := FindTarget(into, ls, 0);
            && h < |ls|
            && Assemble(into, text, fs).text == Unlines(Spliced(ls, h, FindRelease(ls, h + 1), Printed(m)))
            && m.extras == was.extras
            && ShownKeys(m) == Shown(m, ["### Breaking", "### Security", "### Added", "### Changed", "### Fixed"] + was.extras)
            && (forall k :: k in m.items <==> k in was.items)
            && forall k, it :: k in was.items ==>
                 (it in m.items[k] <==>
                  it in was.items[k] || exists i :: 0 <= i < |fs| && BelongsUnder(fs[i], k) && it in FragmentItems(fs[i]))
    ensures forall i, k :: 0 <= i < |fs| && BelongsUnder(fs[i], k) ==>
              k in SectionsOfText(into, text).value.items && k in ShownKeys(Merged(into, text, fs))
  {
    SectionsInGood(into, Split(text));
    forall i, k | 0 <= i < |fs| && BelongsUnder(fs[i], k)
      ensures k in SectionsOfText(into, text).value.items && k in ShownKeys(Merged(into, text, fs))
    {
      FragmentIsShown(SectionsOfText(into, text).value, fs, i, k);
    }
    var was, m := SectionsOfText(into, text).value, Merged(into, text, fs);
    AddFragmentsItems(was, fs, "");
    forall k, it | k in was.items
      ensures it in m.items[k] <==>
              it in was.items[k] || exists i :: 0 <= i < |fs| && BelongsUnder(fs[i], k) && it in FragmentItems(fs[i])
    {
      MergingGainsOnly(was, fs, k);
      BroughtMeaning(fs, k, it);
    }
  }

  // ---- Items as text ----

  /** The script's `merged` dictionary, which keeps items as text. */
  ghost predicate Renders(merged: map<string, seq<string>>, s: Sections) {
    merged.Keys == s.items.Keys && forall k :: k in merged ==> merged[k] == ItemTexts(s.items[k])
  }

  lemma ItemTextInjective(a: Item, b: Item)
    requires GoodItem(a) && GoodItem(b)
    ensures ItemText(a) == ItemText(b) <==> a == b
  {
    UnlinesInjective(a, b);
  }

  lemma TextIn(it: Item, its: seq<Item>)
    requires GoodItem(it) && GoodItems(its)
    ensures ItemText(it) in ItemTexts(its) <==> it in its
  {
    if it in its {
      var i :| 0 <= i < |its| && its[i] == it;
      assert ItemTexts(its)[i] == ItemText(it);
    }
    if ItemText(it) in ItemTexts(its) {
      var i :| 0 <= i < |its| && ItemTexts(its)[i] == ItemText(it);
      ItemTextInjective(its[i], it);
    }
  }

  /** Appends the items a section does not have yet. */
  method AddNew(have: seq<string>, more: seq<string>, ghost hs: seq<Item>, ghost ms: seq<Item>)
    returns (all: seq<string>)
    requires GoodItems(hs) && GoodItems(ms) && have == ItemTexts(hs) && more == ItemTexts(ms)
    ensures all == ItemTexts(AddItems(hs, ms))
  {
    all := have;
    ghost var done := hs;
    for i := 0 to |more|
      invariant GoodItems(done) && all == ItemTexts(done)
      invariant AddItems(hs, ms) == AddItems(done, ms[i..])
    {
      TextIn(ms[i], done);
      assert ms[i..][0] == ms[i] && ms[i..][1..] == ms[i + 1..];
      if more[i] !in all {
        all := all + [more[i]];
        ItemTextsAppend(done, [ms[i]]);
        done := done + [ms[i]];
      }
    }
  }

  /** Merges every fragment's items into the section its name gives. */
  method MergeFragments(merged0: map<string, seq<string>>, fs: seq<Fragment>, ghost s: Sections)
    returns (merged: map<string, seq<string>>)
    requires Good(s) && AllValid(fs) && Renders(merged0, s)
    ensures Renders(merged, AddFragments(s, fs))
  {
    merged := merged0;
    ghost var done := s;
    for i := 0 to |fs|
      invariant Good(done) && Renders(merged, done)
      invariant AddFragments(s, fs) == AddFragments(done, fs[i..])
    {
      var f := fs[i];
      assert fs[i..][0] == f && fs[i..][1..] == fs[i + 1..];
      ValidHeading(f);
      FragmentItemsAreGood(f);
      var section := HeadingOf(f);
      assert section in done.items;
      var more := Items(StripNewlines(f.text));
      var all := AddNew(merged[section], more, done.items[section], FragmentItems(f));
      merged := merged[section := all];
      AddFragmentsGood(done, [f]);
      assert AddFragments(done, [f]) == AddFragment(done, f) by {
        assert [f][1..] == [];
      }
      done := AddFragment(done, f);
    }
  }

  // ---- Sections as text ----

  method GroupPieces(pieces: seq<string>) returns (extras: seq<string>, groups: map<string, seq<string>>)
    ensures Grouped(pieces, NO_LINES).extras == extras && Grouped(pieces, NO_LINES).lines == groups
  {
    groups := map k | k in HEADINGS :: [];
    extras := [];
    var current: Option<string> := None;
    for i := 0 to |pieces|
      invariant current.Some? ==> current.value in groups
      invariant Grouped(pieces, NO_LINES) == Grouped(pieces[i..], Grouping(current, extras, groups))
    {
      var line := pieces[i];
      assert pieces[i..][0] == line && pieces[i..][1..] == pieces[i + 1..];
      if IsTitle(line) {
        var key := Strip(line);
        current := Some(key);
        if key !in groups {
          extras := extras + [key];
          groups := groups[key := []];
        }
        continue;
      }
      if current.Some? {
        groups := groups[current.value := groups[current.value] + [line]];
      }
    }
  }

  lemma ItemsOfJoined(body: seq<string>)
    requires AllOneLine(body)
    ensures ItemsOf(Split(Unlines(body))) == ItemsOf(body)
  {
    if body == [] {
      assert Split(Unlines(body)) == [""] && [""][1..] == [];
    } else {
      SplitUnlines(body);
    }
  }

  method ParseGroups(groups: map<string, seq<string>>) returns (merged: map<string, seq<string>>)
    requires forall k :: k in groups ==> AllOneLine(groups[k])
    ensures merged.Keys == groups.Keys
    ensures forall k :: k in groups ==> merged[k] == ItemTexts(ItemsOf(groups[k]))
  {
    merged := map[];
    var todo := groups.Keys;
    while todo != {}
      invariant todo <= groups.Keys && merged.Keys == groups.Keys - todo
      invariant forall k :: k in merged ==> merged[k] == ItemTexts(ItemsOf(groups[k]))
    {
      var key :| key in todo;
      var items := Items(Unlines(groups[key]));
      ItemsOfJoined(groups[key]);
      merged := merged[key := items];
      todo := todo - {key};
    }
  }

  function BlockText(k: string, its: seq<Item>): string {
    k + "\n\n" + Join(ItemTexts(its), "\n\n")
  }

  function BlockTexts(s: Sections, ks: seq<string>): seq<string>
    requires forall k :: k in ks ==> k in s.items
  {
    if ks == [] then [] else [BlockText(ks[0], s.items[ks[0]])] + BlockTexts(s, ks[1..])
  }

  lemma JoinWithBlank(a: seq<string>, b: seq<string>)
    requires a != [] && b != []
    ensures Unlines(a + [""] + b) == Unlines(a) + "\n\n" + Unlines(b)
  {
    JoinSnoc(a, "", "\n");
    JoinAppend(a + [""], b, "\n");
    assert Unlines(a) + "\n" + "" + "\n" == Unlines(a) + "\n\n";
  }

  lemma SpreadText(its: seq<Item>)
    requires its != [] && AllShaped(its)
    ensures Spread(its) != [] && Join(ItemTexts(its), "\n\n") == Unlines(Spread(its))
  {
    if |its| > 1 {
      SpreadText(its[1..]);
      assert ItemTexts(its)[1..] == ItemTexts(its[1..]);
      JoinWithBlank(its[0], Spread(its[1..]));
    }
  }

  lemma BlockTextIsLines(k: string, its: seq<Item>)
    requires its != [] && AllShaped(its)
    ensures BlockText(k, its) == Unlines(Block(k, its))
  {
    SpreadText(its);
    JoinWithBlank([k], Spread(its));
    assert [k] + [""] + Spread(its) == Block(k, its);
  }

  lemma BlockTextsAreLines(s: Sections, ks: seq<string>)
    requires ks != [] && forall k :: k in ks ==> k in s.items
    requires forall k :: k in ks ==> s.items[k] != [] && AllShaped(s.items[k])
    ensures PrintBlocks(s, ks) != [] && Join(BlockTexts(s, ks), "\n\n") == Unlines(PrintBlocks(s, ks))
  {
    assert ks[0] in ks;
    BlockTextIsLines(ks[0], s.items[ks[0]]);
    if |ks| > 1 {
      BlockTextsAreLines(s, ks[1..]);
      JoinWithBlank(Block(ks[0], s.items[ks[0]]), PrintBlocks(s, ks[1..]));
    }
  }

  lemma ShownSnoc(s: Sections, ks: seq<string>, k: string)
    ensures Shown(s, ks + [k]) == Shown(s, ks) + if k in s.items && s.items[k] != [] then [k] else []
  {
    ShownAppend(s, ks, [k]);
    assert [k][1..] == [];
  }

  lemma BlockTextsSnoc(s: Sections, ks: seq<string>, k: string)
    requires k in s.items && forall x :: x in ks ==> x in s.items
    ensures forall x :: x in ks + [k] ==> x in s.items
    ensures BlockTexts(s, ks + [k]) == BlockTexts(s, ks) + [BlockText(k, s.items[k])]
  {
    if ks == [] {
      assert ks + [k] == [k] && [k][1..] == [];
    } else {
      BlockTextsSnoc(s, ks[1..], k);
      assert (ks + [k])[1..] == ks[1..] + [k];
    }
  }

  /** The text of every section that has items, in the given order. */
  method PrintSections(merged: map<string, seq<string>>, ordered: seq<string>, ghost s: Sections)
    returns (blocks: seq<string>)
    requires Renders(merged, s)
    ensures forall k :: k in Shown(s, ordered) ==> k in s.items
    ensures blocks == BlockTexts(s, Shown(s, ordered))
  {
    blocks := [];
    ShownAreSections(s, ordered);
    for i := 0 to |ordered|
      invariant forall k :: k in Shown(s, ordered[..i]) ==> k in s.items
      invariant blocks == BlockTexts(s, Shown(s, ordered[..i]))
    {
      var key := ordered[i];
      assert ordered[..i + 1] == ordered[..i] + [key];
      ShownSnoc(s, ordered[..i], key);
      assert Shown(s, ordered[..i]) + [] == Shown(s, ordered[..i]);
      if key in merged && merged[key] != [] {
        blocks := blocks + [key + "\n\n" + Join(merged[key], "\n\n")];
        BlockTextsSnoc(s, Shown(s, ordered[..i]), key);
      }
    }
    assert ordered[..|ordered|] == ordered;
  }

  // ---- The whole script ----

  lemma {:induction false} SomethingShown(s: Sections, fs: seq<Fragment>)
    requires Good(s) && AllValid(fs) && fs != []
    ensures ShownKeys(AddFragments(s, fs)) != []
  {
    var k := HeadingOf(fs[0]);
    var m := AddFragments(s, fs);
    ValidHeading(fs[0]);
    ValidHasItem(fs[0]);
    AddFragmentsItems(s, fs, k);
    AddItemsConserves(s.items[k], Brought(fs, k));
    var it := FragmentItems(fs[0])[0];
    assert Brought(fs, k)[0] == it;
    assert it in m.items[k];
    ShownAreSections(m, HEADINGS + m.extras);
    assert k in ShownKeys(m);
  }

  lemma TextOfSpliced(ls: seq<string>, h: nat, n: nat, p: seq<string>)
    requires h < n <= |ls| && p != []
    ensures Unlines(Spliced(ls, h, n, p)) ==
            Unlines(ls[..h + 1]) + "\n\n" + Unlines(p) + "\n\n" + Unlines(After(ls, n))
  {
    JoinWithBlank(ls[..h + 1], p);
    JoinWithBlank(ls[..h + 1] + [""] + p, After(ls, n));
    assert Spliced(ls, h, n, p) == ls[..h + 1] + [""] + p + [""] + After(ls, n);
  }

  /** Where the target release starts and ends, if the changelog has it. */
  method FindRegion(into: Option<string>, lines: seq<string>) returns (h: nat, n: nat)
    ensures h == FindTarget(into, lines, 0)
    ensures h < |lines| ==> h < n && n == FindRelease(lines, h + 1)
  {
    h, n := 0, 0;
    while h < |lines| && !IsTarget(into, lines[h])
      invariant h <= |lines| && FindTarget(into, lines, 0) == FindTarget(into, lines, h)
    {
      h := h + 1;
    }
    if h < |lines| {
      n := h + 1;
      while n < |lines| && !IsRelease(lines[n])
        invariant h < n <= |lines| && FindRelease(lines, h + 1) == FindRelease(lines, n)
      {
        n := n + 1;
      }
    }
  }

  lemma PrintedText(s: Sections)
    requires Good(s) && ShownKeys(s) != []
    ensures Printed(s) != [] && Join(BlockTexts(s, ShownKeys(s)), "\n\n") == Unlines(Printed(s))
  {
    ShownAreSections(s, HEADINGS + s.extras);
    forall k | k in ShownKeys(s) ensures AllShaped(s.items[k]) {
      assert GoodItems(s.items[k]);
    }
    BlockTextsAreLines(s, ShownKeys(s));
  }

  lemma GroupsAreOneLine(pieces: seq<string>)
    requires AllUnreleased(pieces)
    ensures var g := Grouped(pieces, NO_LINES);
            forall k :: k in g.lines ==> AllOneLine(g.lines[k])
  {
    NoLinesGood();
    GroupedGood(pieces, NO_LINES);
  }

  /** The printed release: its old sections with the fragments merged in. */
  method NewRelease(pieces: seq<string>, fs: seq<Fragment>) returns (printed: string)
    requires AllUnreleased(pieces) && AllValid(fs) && fs != []
    ensures var s := AddFragments(ReadSections(pieces), fs); Printed(s) != [] && printed == Unlines(Printed(s))
  {
    var extras, groups := GroupPieces(pieces);
    ghost var was := ReadSections(pieces);
    ReadIsGood(pieces);
    GroupsAreOneLine(pieces);
    var merged := ParseGroups(groups);
    merged := MergeFragments(merged, fs, was);
    ghost var s := AddFragments(was, fs);
    AddFragmentsGood(was, fs);
    AddFragmentsItems(was, fs, "");
    var blocks := PrintSections(merged, HEADINGS + extras, s);
    SomethingShown(was, fs);
    PrintedText(s);
    printed := Join(blocks, "\n\n");
  }

  lemma RegionUnreleased(ls: seq<string>, h: nat, n: nat)
    requires AllOneLine(ls) && h < n <= |ls| && n == FindRelease(ls, h + 1)
    ensures AllUnreleased(RegionPieces(ls, h, n))
  {
    var pieces := RegionPieces(ls, h, n);
    forall i | 0 <= i < |pieces| ensures Unreleased(pieces[i]) {
      if 1 <= i < 1 + (n - (h + 1)) {
        assert pieces[i] == ls[h + i];
      }
    }
  }

  lemma {:induction false} AssembledLines(into: Option<string>, text: string, fs: seq<Fragment>, h: nat, n: nat)
    requires AllValid(fs) && fs != []
    requires h == FindTarget(into, Split(text), 0) && h < n <= |Split(text)| && n == FindRelease(Split(text), h + 1)
    ensures var ls := Split(text);
            Assemble(into, text, fs) ==
            Written(Unlines(Spliced(ls, h, n, Printed(AddFragments(ReadSections(RegionPieces(ls, h, n)), fs)))))
  {
    var ls := Split(text);
    var s := ReadSections(RegionPieces(ls, h, n));
    assert SectionsIn(into, ls) == Some(s);
    assert WithSections(into, ls, AddFragments(s, fs)) == Spliced(ls, h, n, Printed(AddFragments(s, fs)));
  }

  /** The text the script assembles when the release is at `h`. */
  lemma {:induction false} AssembledText(into: Option<string>, text: string, fs: seq<Fragment>, h: nat, n: nat)
    requires AllValid(fs) && fs != []
    requires h == FindTarget(into, Split(text), 0) && h < n <= |Split(text)| && n == FindRelease(Split(text), h + 1)
    requires Printed(AddFragments(ReadSections(RegionPieces(Split(text), h, n)), fs)) != []
    ensures var ls := Split(text);
            var p := Printed(AddFragments(ReadSections(RegionPieces(ls, h, n)), fs));
            Assemble(into, text, fs) ==
            Written(Unlines(ls[..h + 1]) + "\n\n" + Unlines(p) + "\n\n" + Unlines(After(ls, n)))
  {
    AssembledLines(into, text, fs, h, n);
    TextOfSpliced(Split(text), h, n, Printed(AddFragments(ReadSections(RegionPieces(Split(text), h, n)), fs)));
  }

  method AssembleChangelog(into: Option<string>, text: string, fs: seq<Fragment>) returns (o: Outcome)
    ensures o == Assemble(into, text, fs)
  {
    var problems := Validate(fs);
    if problems != [] {
      return Refused;
    }
    if fs == [] {
      return NoFragments;
    }
    var lines := Split(text);
    var h, n := FindRegion(into, lines);
    if h == |lines| {
      return NoHeading;
    }
    RegionUnreleased(lines, h, n);
    var printed := NewRelease(RegionPieces(lines, h, n), fs);
    AssembledText(into, text, fs, h, n);
    var before, after := Unlines(lines[..h + 1]), Unlines(After(lines, n));
    o := Written(before + "\n\n" + printed + "\n\n" + after);
  }

  // ---- The text that is written ----

  lemma RegionBounds(into: Option<string>, text: string, fs: seq<Fragment>)
    requires CanAssemble(into, text, fs)
    ensures var ls := Split(text);
            var h := FindTarget(into, ls, 0);
            h < |ls| && h < FindRelease(ls, h + 1) <= |ls|
  {
  }

  /** The written text: up to the end of the target heading as it was; then, set off by blank lines, each heading
      with items, a blank line and its items with blank lines between; then the next release as it was. */
  lemma {:induction false} WrittenText(into: Option<string>, text: string, fs: seq<Fragment>)
    requires CanAssemble(into, text, fs)
    ensures var ls, m := Split(text), Merged(into, text, fs);
            var h := FindTarget(into, ls, 0);
            && h < |ls|
            && var n := FindRelease(ls, h + 1);
               Assemble(into, text, fs) ==
               Written(Unlines(ls[..h + 1]) + "\n\n" + Join(BlockTexts(m, ShownKeys(m)), "\n\n") + "\n\n" +
                       (if n < |ls| then Unlines(ls[n..]) else ""))
  {
    var ls := Split(text);
    RegionBounds(into, text, fs);
    var h := FindTarget(into, ls, 0);
    SectionsInGood(into, ls);
    MergedGood(into, text, fs);
    SomethingShown(SectionsOfText(into, text).value, fs);
    PrintedText(Merged(into, text, fs));
    AssembledText(into, text, fs, h, FindRelease(ls, h + 1));
  }
}
