/** What the patterns of the changelog script accept (scripts/changelog-assemble.py): the heading that
    fragments are assembled under, the names and texts of fragments, the items of a block of lines and the
    sections of a release. */
module ChangelogPatterns {
  import opened TextLines
  import opened ChangelogItems
  import opened Changelog
  import opened ChangelogReadBack
  import opened Wrappers

  // ---- The target heading ----

  /** `[ \t]*` */
  predicate IsPad(w: string) {
    forall i :: 0 <= i < |w| ==> w[i] == ' ' || w[i] == '\t'
  }

  /** `\d{4}-\d{2}-\d{2}` */
  predicate IsDay(d: string) {
    && |d| == 10 && d[4] == '-' && d[7] == '-'
    && IsDigit(d[0]) && IsDigit(d[1]) && IsDigit(d[2]) && IsDigit(d[3])
    && IsDigit(d[5]) && IsDigit(d[6]) && IsDigit(d[8]) && IsDigit(d[9])
  }

  lemma PadMeaning(w: string)
    ensures AllIn(w, {' ', '\t'}) <==> IsPad(w)
  {
  }

  lemma DayMeaning(d: string)
    ensures IsDate(d) <==> IsDay(d)
  {
  }

  /** Without a version, the target is the Unreleased heading, alone on its line but for padding. */
  lemma {:induction false} UnreleasedMeaning(l: string)
    ensures IsTarget(None, l) <==> exists w :: IsPad(w) && l == "## [Unreleased]" + w
  {
    var start := "## [Unreleased]";
    if start <= l {
      PadMeaning(l[15..]);
      assert l == start + l[15..];
    }
    if w :| IsPad(w) && l == start + w {
      assert l[15..] == w;
    }
  }

  lemma DatedParts(start: string, d: string, w: string)
    requires |d| == 10
    ensures var l := start + (d + w);
            start <= l && |l| >= |start| + 10 && l[|start|..|start| + 10] == d && l[|start| + 10..] == w
  {
  }

  /** With a version, it is that version's dated heading. */
  lemma {:induction false} DatedMeaning(version: string, l: string)
    ensures IsTarget(Some(version), l) <==>
            exists d, w :: IsDay(d) && IsPad(w) && l == "## [" + version + "] - " + (d + w)
  {
    var start := "## [" + version + "] - ";
    var n := |start|;
    if IsTarget(Some(version), l) {
      var d, w := l[n..n + 10], l[n + 10..];
      DayMeaning(d);
      PadMeaning(w);
      assert l == start + (d + w);
    }
    if d, w :| IsDay(d) && IsPad(w) && l == start + (d + w) {
      DatedParts(start, d, w);
      DayMeaning(d);
      PadMeaning(w);
    }
  }

  // ---- Fragment names ----

  predicate IsSection(s: string) {
    s == "breaking" || s == "security" || s == "added" || s == "changed" || s == "fixed"
  }

  /** `[a-z0-9][a-z0-9-]*` */
  predicate IsSlug(s: string) {
    s != "" && s[0] != '-' && forall i :: 0 <= i < |s| ==> 'a' <= s[i] <= 'z' || '0' <= s[i] <= '9' || s[i] == '-'
  }

  lemma {:induction false} SectionMeaning(s: string)
    ensures IsSection(s) <==> exists i :: 0 <= i < |SECTIONS| && SECTIONS[i] == s
  {
    assert SECTIONS[0] == "breaking" && SECTIONS[1] == "security" && SECTIONS[2] == "added";
    assert SECTIONS[3] == "changed" && SECTIONS[4] == "fixed";
  }

  lemma SlugMeaning(s: string)
    ensures IsSlugName(s) <==> IsSlug(s)
  {
  }

  lemma {:induction false} SlugAndSuffixMeaning(s: string)
    ensures IsSlugAndSuffix(s) <==> exists slug :: IsSlug(slug) && (s == slug + ".md" || s == slug + ".md" + "\n")
  {
    var t := if s != "" && s[|s| - 1] == '\n' then s[..|s| - 1] else s;
    if IsSlugAndSuffix(s) {
      var slug := t[..|t| - 3];
      SlugMeaning(slug);
      assert t == slug + ".md";
      assert t == s || s == t + "\n";
    }
    if slug :| IsSlug(slug) && (s == slug + ".md" || s == slug + ".md" + "\n") {
      assert t == slug + ".md";
      assert t[..|t| - 3] == slug && t[|t| - 3..] == ".md";
      SlugMeaning(slug);
    }
  }

  lemma {:induction false} NameFitsMeaning(name: string, section: string)
    ensures NameFits(name, section) <==>
            exists rest :: IsSlugAndSuffix(rest) && name == section + "." + rest
  {
    if NameFits(name, section) {
      assert name == section + "." + name[|section| + 1..];
    }
    if rest :| IsSlugAndSuffix(rest) && name == section + "." + rest {
      assert name[|section| + 1..] == rest;
    }
  }

  /** A fragment's name is a section, a dot, a slug and `.md`; `$` also lets a final line break through. */
  ghost predicate IsFragmentName(name: string, section: string, slug: string) {
    IsSection(section) && IsSlug(slug) &&
    (name == section + "." + (slug + ".md") || name == section + "." + (slug + ".md" + "\n"))
  }

  lemma {:induction false} NameMeaning(name: string)
    ensures NameMatches(name) <==> exists section, slug :: IsFragmentName(name, section, slug)
  {
    if NameMatches(name) {
      var i :| 0 <= i < |SECTIONS| && NameFits(name, SECTIONS[i]);
      NameFitsMeaning(name, SECTIONS[i]);
      var rest :| IsSlugAndSuffix(rest) && name == SECTIONS[i] + "." + rest;
      SlugAndSuffixMeaning(rest);
      var slug :| IsSlug(slug) && (rest == slug + ".md" || rest == slug + ".md" + "\n");
      SectionMeaning(SECTIONS[i]);
      assert IsFragmentName(name, SECTIONS[i], slug);
    }
    if section, slug :| IsFragmentName(name, section, slug) {
      SectionMeaning(section);
      var i :| 0 <= i < |SECTIONS| && SECTIONS[i] == section;
      var rest := if name == section + "." + (slug + ".md") then slug + ".md" else slug + ".md" + "\n";
      SlugAndSuffixMeaning(rest);
      NameFitsMeaning(name, section);
    }
  }

  // ---- Fragment texts ----

  lemma BulletsAreNotBlank(t: string)
    requires "- " <= t
    ensures !Blank(t)
  {
    assert t[0] == '-';
  }

  lemma LinesFit(ls: seq<string>)
    ensures (forall i :: 0 <= i < |ls| ==> LineFits(ls[i])) <==> forall l :: l in ls ==> l == "" || "- " <= l || "  " <= l
  {
    assert forall i :: 0 <= i < |ls| ==> ls[i] in ls;
    assert forall l :: LineFits(l) <==> l == "" || "- " <= l || "  " <= l;
  }

  /** A fragment is valid when it has such a name, begins with a bullet once line breaks around it are dropped,
      and holds only bullets, indented lines and empty ones. */
  lemma {:induction false} ValidMeaning(f: Fragment)
    ensures ValidFragment(f) <==>
            && NameMatches(f.name)
            && var t := StripNewlines(f.text);
               "- " <= t && forall l :: l in Split(t) ==> l == "" || "- " <= l || "  " <= l
  {
    var t := StripNewlines(f.text);
    if "- " <= t {
      BulletsAreNotBlank(t);
    }
    LinesFit(Split(t));
    assert FragmentLines(f) == Split(t);
    assert BULLET <= t <==> "- " <= t;
    assert (forall i :: 0 <= i < |FragmentLines(f)| ==> LineFits(FragmentLines(f)[i])) <==>
           forall l :: l in Split(t) ==> l == "" || "- " <= l || "  " <= l;
  }

  lemma {:induction false} LeadingRun(s: string, c: char) returns (a: string)
    ensures s == a + DropLeading(s, c) && forall i :: 0 <= i < |a| ==> a[i] == c
    ensures DropLeading(s, c) != "" ==> DropLeading(s, c)[0] != c
  {
    a := "";
    if s != "" && s[0] == c {
      var rest := LeadingRun(s[1..], c);
      a := [c] + rest;
      assert s == [c] + s[1..];
    }
  }

  lemma {:induction false} TrailingRun(s: string, c: char) returns (b: string)
    ensures s == DropTrailing(s, c) + b && forall i :: 0 <= i < |b| ==> b[i] == c
    ensures DropTrailing(s, c) != "" ==> DropTrailing(s, c)[|DropTrailing(s, c)| - 1] != c
  {
    b := "";
    if s != "" && s[|s| - 1] == c {
      var rest := TrailingRun(s[..|s| - 1], c);
      b := rest + [c];
      assert s == s[..|s| - 1] + [c];
    }
  }

  /** Dropping line breaks around a text takes all of them and nothing else. */
  lemma {:induction false} StripNewlinesMeaning(s: string) returns (a: string, b: string)
    ensures s == a + StripNewlines(s) + b
    ensures forall i :: 0 <= i < |a| ==> a[i] == '\n'
    ensures forall i :: 0 <= i < |b| ==> b[i] == '\n'
    ensures var t := StripNewlines(s); t != "" ==> t[0] != '\n' && t[|t| - 1] != '\n'
  {
    a := LeadingRun(s, '\n');
    b := TrailingRun(DropLeading(s, '\n'), '\n');
  }

  // ---- Items ----

  /** A line that does not go on with the item before it. */
  predicate Breaks(l: string) {
    "- " <= l || Blank(l)
  }

  /** The lines from `k` up to `e` are a bullet with all the lines that go on with it. */
  predicate IsItemAt(ls: seq<string>, k: nat, e: nat) {
    && k < e <= |ls| && "- " <= ls[k]
    && (forall j :: k < j < e ==> !Breaks(ls[j]))
    && (e < |ls| ==> Breaks(ls[e]))
  }

  /** Their text, without white space at its end. */
  function TextAt(ls: seq<string>, k: nat, e: nat): Item
    requires k < e <= |ls|
  {
    ls[k..e - 1] + [Rstrip(ls[e - 1])]
  }

  lemma ItemFurther(a: seq<string>, b: seq<string>, k: nat, e: nat)
    requires k <= e <= |b|
    ensures IsItemAt(a + b, |a| + k, |a| + e) <==> IsItemAt(b, k, e)
    ensures IsItemAt(b, k, e) ==> TextAt(a + b, |a| + k, |a| + e) == TextAt(b, k, e)
  {
    var ls := a + b;
    assert forall j :: 0 <= j < |b| ==> ls[|a| + j] == b[j];
    if IsItemAt(ls, |a| + k, |a| + e) {
      forall j | k < j < e ensures !Breaks(b[j]) {
        assert !Breaks(ls[|a| + j]);
      }
    }
    if IsItemAt(b, k, e) {
      forall j | |a| + k < j < |a| + e ensures !Breaks(ls[j]) {
        assert !Breaks(b[j - |a|]);
      }
      assert ls[|a| + k..|a| + e - 1] == b[k..e - 1];
    }
  }

  /** The first item of some lines that begin with a bullet. */
  lemma {:induction false} FirstItem(ls: seq<string>) returns (e: nat)
    requires ls != [] && "- " <= ls[0]
    ensures IsItemAt(ls, 0, e)
    ensures ItemsOf(ls) == [TextAt(ls, 0, e)] + ItemsOf(ls[e..])
  {
    e := 1;
    while e < |ls| && !Breaks(ls[e])
      invariant 1 <= e <= |ls|
      invariant forall j :: 0 < j < e ==> !Breaks(ls[j])
    {
      e := e + 1;
    }
    var item, rest := ls[..e], ls[e..];
    assert ls[1..] == item[1..] + rest && [ls[0]] + item[1..] == item;
    ParseContinuations(item[1..], rest, [ls[0]]);
    assert ItemsOf(ls) == ParseFrom(rest, item);
    assert item[..e - 1] == ls[0..e - 1];
    assert Finish(item) + ParseFrom([], []) == Finish(item);
  }

  lemma AfterItem(ls: seq<string>, e: nat, k: nat, f: nat)
    requires IsItemAt(ls, 0, e) && IsItemAt(ls, k, f)
    ensures (k == 0 && f == e) || k >= e
  {
    if k == 0 {
      assert !(f < e) && !(e < f);
    }
  }

  ghost predicate Names(ls: seq<string>, it: Item) {
    exists k: nat, e: nat :: IsItemAt(ls, k, e) && it == TextAt(ls, k, e)
  }

  lemma NamesFurther(a: seq<string>, b: seq<string>, it: Item)
    requires Names(b, it)
    ensures Names(a + b, it)
  {
    var k: nat, e: nat :| IsItemAt(b, k, e) && it == TextAt(b, k, e);
    ItemFurther(a, b, k, e);
    assert IsItemAt(a + b, |a| + k, |a| + e);
  }

  /** An item that begins in the second part of some lines is an item of that part. */
  lemma NamesFrom(a: seq<string>, b: seq<string>, k: nat, e: nat)
    requires |a| <= k < e <= |a| + |b| && IsItemAt(a + b, k, e)
    ensures Names(b, TextAt(a + b, k, e))
  {
    ItemFurther(a, b, k - |a|, e - |a|);
    assert IsItemAt(b, k - |a|, e - |a|);
  }

  lemma NamesFirst(ls: seq<string>, n: nat, it: Item)
    requires IsItemAt(ls, 0, n)
    ensures Names(ls, it) <==> it == TextAt(ls, 0, n) || Names(ls[n..], it)
  {
    assert ls == ls[..n] + ls[n..];
    if Names(ls, it) {
      var k: nat, e: nat :| IsItemAt(ls, k, e) && it == TextAt(ls, k, e);
      AfterItem(ls, n, k, e);
      if k >= n {
        NamesFrom(ls[..n], ls[n..], k, e);
      }
    }
    if Names(ls[n..], it) {
      NamesFurther(ls[..n], ls[n..], it);
    }
  }

  lemma NamesSkip(l: string, rest: seq<string>, it: Item)
    requires !("- " <= l)
    ensures Names([l] + rest, it) <==> Names(rest, it)
  {
    if Names([l] + rest, it) {
      var k: nat, e: nat :| IsItemAt([l] + rest, k, e) && it == TextAt([l] + rest, k, e);
      NamesFrom([l], rest, k, e);
    }
    if Names(rest, it) {
      NamesFurther([l], rest, it);
    }
  }

  lemma ItemsSkip(ls: seq<string>)
    requires ls != [] && !("- " <= ls[0])
    ensures ItemsOf(ls) == ItemsOf(ls[1..])
  {
  }

  /** The items of a block are its bullets, each with the lines that go on with it; lines that go on with none are
      left out. */
  lemma {:induction false} ItemsMeaning(ls: seq<string>, it: Item)
    ensures it in ItemsOf(ls) <==> exists k: nat, e: nat :: IsItemAt(ls, k, e) && it == TextAt(ls, k, e)
    decreases |ls|
  {
    if ls == [] {
      assert !Names(ls, it);
    } else if "- " <= ls[0] {
      var n := FirstItem(ls);
      ItemsMeaning(ls[n..], it);
      NamesFirst(ls, n, it);
    } else {
      ItemsMeaning(ls[1..], it);
      ItemsSkip(ls);
      NamesSkip(ls[0], ls[1..], it);
      assert ls == [ls[0]] + ls[1..];
    }
  }

  // ---- Sections ----

  /** The lines of a release before its first heading belong to no section, and the five sections are there
      from the start. */
  lemma {:induction false} NoSectionYet(ls: seq<string>)
    requires forall i :: 0 <= i < |ls| ==> !("### " <= ls[i])
    ensures Grouped(ls, NO_LINES) == NO_LINES
    ensures NO_LINES.extras == []
    ensures NO_LINES.lines == map["### Breaking" := [], "### Security" := [], "### Added" := [], "### Changed" := [], "### Fixed" := []]
  {
    if ls != [] {
      NoSectionYet(ls[1..]);
    }
  }

  /** The lines after a heading, up to the next, are added to its section, whether or not the section was
      there; a heading seen for the first time comes after all others. */
  lemma {:induction false} LastSection(a: seq<string>, t: string, b: seq<string>)
    requires "### " <= t && forall i :: 0 <= i < |b| ==> !("### " <= b[i])
    ensures var was, now, k := Grouped(a, NO_LINES), Grouped(a + ([t] + b), NO_LINES), Strip(t);
            && now.lines == was.lines[k := (if k in was.lines then was.lines[k] else []) + b]
            && now.extras == was.extras + (if k in was.lines then [] else [k])
  {
    GroupedAppend(a, [t] + b, NO_LINES);
    var was := Grouped(a, NO_LINES);
    assert ([t] + b)[1..] == b;
    GroupedBody(b, GroupLine(was, t));
  }

  /** The last line break before the next release adds nothing to any section. */
  lemma TrailingPiece(g: Grouping, k: string)
    requires k in g.lines
    ensures k in GroupLine(g, "").lines && ItemsOf(GroupLine(g, "").lines[k]) == ItemsOf(g.lines[k])
    ensures GroupLine(g, "").lines.Keys == g.lines.Keys && GroupLine(g, "").extras == g.extras
  {
    ParseTrailingBlank(g.lines[k], []);
  }

  lemma {:induction false} PiecesMeaning(ls: seq<string>, h: nat, n: nat, k: string)
    requires h < n <= |ls|
    ensures var g, s := Grouped(ls[h + 1..n], NO_LINES), ReadSections(RegionPieces(ls, h, n));
            && s.extras == g.extras && (k in s.items <==> k in g.lines)
            && (k in g.lines ==> s.items[k] == ItemsOf(g.lines[k]))
  {
    var x := ls[h + 1..n];
    var tail := if n < |ls| then [""] else [];
    assert RegionPieces(ls, h, n)[1..] == x + tail && RegionPieces(ls, h, n)[0] == "";
    GroupedAppend(x, tail, NO_LINES);
    var g := Grouped(x, NO_LINES);
    assert [""][1..] == [];
    assert Grouped([""], g) == GroupLine(g, "");
    if k in g.lines {
      TrailingPiece(g, k);
    }
  }

  /** The release that is read begins after the first line that is the target heading and ends before the next line
      that begins a release; each of its sections holds the items of the lines under its heading. */
  lemma {:induction false} ReleaseMeaning(into: Option<string>, ls: seq<string>, h: nat, n: nat, k: string)
    requires h < n <= |ls| && IsTarget(into, ls[h]) && forall i :: 0 <= i < h ==> !IsTarget(into, ls[i])
    requires (forall i :: h < i < n ==> !("## [" <= ls[i])) && (n < |ls| ==> "## [" <= ls[n])
    ensures var g := Grouped(ls[h + 1..n], NO_LINES);
            && SectionsIn(into, ls).Some?
            && var s := SectionsIn(into, ls).value;
               && s.extras == g.extras && (k in s.items <==> k in g.lines)
               && (k in g.lines ==> s.items[k] == ItemsOf(g.lines[k]))
  {
    assert FindTarget(into, ls, 0) == h;
    assert FindRelease(ls, h + 1) == n;
    PiecesMeaning(ls, h, n, k);
  }
}
