/** Assembling changelog fragments into a release section (scripts/changelog-assemble.py): which
    lines belong to the release, how they group into sections, how fragments merge, how the
    sections print, and what a fragment must look like. */
module Changelog {
  import opened TextLines
  import opened ChangelogItems
  import opened Wrappers

  const HEADINGS: seq<string> := ["### Breaking", "### Security", "### Added", "### Changed", "### Fixed"]
  const SECTIONS: seq<string> := ["breaking", "security", "added", "changed", "fixed"]

  predicate IsTitle(l: string) {
    "### " <= l
  }

  predicate IsRelease(l: string) {
    "## [" <= l
  }

  // ---- Grouping the lines of a release under their headings ----

  /** The script's `groups` dictionary and `current` heading: the canonical headings come first,
      then every other heading in order of first appearance. */
  datatype Grouping = Grouping(current: Option<string>, extras: seq<string>, lines: map<string, seq<string>>)

  const NO_LINES: Grouping := Grouping(None, [], map k | k in HEADINGS :: [])

  function GroupLine(g: Grouping, l: string): Grouping {
    if IsTitle(l) then
      var k := Strip(l);
      if k in g.lines then g.(current := Some(k))
      else Grouping(Some(k), g.extras + [k], g.lines[k := []])
    else if g.current.Some? && g.current.value in g.lines then
      g.(lines := g.lines[g.current.value := g.lines[g.current.value] + [l]])
    else g
  }

  function Grouped(ls: seq<string>, g: Grouping): Grouping {
    if ls == [] then g else Grouped(ls[1..], GroupLine(g, ls[0]))
  }

  /** The sections of a release: the headings that are not canonical, and each heading's items. */
  datatype Sections = Sections(extras: seq<string>, items: map<string, seq<Item>>)

  function ReadSections(pieces: seq<string>): Sections {
    var g := Grouped(pieces, NO_LINES);
    Sections(g.extras, map k | k in g.lines :: ItemsOf(g.lines[k]))
  }

  // ---- Fragments ----

  datatype Fragment = Fragment(name: string, text: string)

  function DropLeading(s: string, c: char): string {
    if s != "" && s[0] == c then DropLeading(s[1..], c) else s
  }

  function DropTrailing(s: string, c: char): string {
    if s != "" && s[|s| - 1] == c then DropTrailing(s[..|s| - 1], c) else s
  }

  /** `text.strip("\n")` */
  function StripNewlines(s: string): string {
    DropTrailing(DropLeading(s, '\n'), '\n')
  }

  predicate IsSlugChar(c: char) {
    'a' <= c <= 'z' || '0' <= c <= '9'
  }

  predicate IsSlugName(s: string) {
    s != "" && IsSlugChar(s[0]) && forall i :: 1 <= i < |s| ==> IsSlugChar(s[i]) || s[i] == '-'
  }

  /** `[a-z0-9][a-z0-9-]*\.md`, where a final line break is let through as `$` lets it. */
  predicate IsSlugAndSuffix(s: string) {
    var t := if s != "" && s[|s| - 1] == '\n' then s[..|s| - 1] else s;
    |t| >= 4 && t[|t| - 3..] == ".md" && IsSlugName(t[..|t| - 3])
  }

  predicate NameFits(name: string, section: string) {
    section + "." <= name && IsSlugAndSuffix(name[|section| + 1..])
  }

  predicate NameMatches(name: string) {
    exists i :: 0 <= i < |SECTIONS| && NameFits(name, SECTIONS[i])
  }

  /** `name.split(".", 1)[0]` */
  function SectionName(name: string): string {
    if name == "" || name[0] == '.' then "" else [name[0]] + SectionName(name[1..])
  }

  /** The heading a fragment's section prints under; a section that is not known has none. */
  function HeadingOf(f: Fragment): string {
    var s := SectionName(f.name);
    if s == "breaking" then HEADINGS[0]
    else if s == "security" then HEADINGS[1]
    else if s == "added" then HEADINGS[2]
    else if s == "changed" then HEADINGS[3]
    else if s == "fixed" then HEADINGS[4]
    else ""
  }

  function FragmentLines(f: Fragment): seq<string> {
    Split(StripNewlines(f.text))
  }

  predicate LineFits(l: string) {
    l == "" || IsBullet(l) || "  " <= l
  }

  /** What `validate` asks of a fragment. */
  predicate ValidFragment(f: Fragment) {
    && NameMatches(f.name)
    && !Blank(StripNewlines(f.text))
    && BULLET <= StripNewlines(f.text)
    && forall i :: 0 <= i < |FragmentLines(f)| ==> LineFits(FragmentLines(f)[i])
  }

  function FragmentItems(f: Fragment): seq<Item> {
    ItemsOf(FragmentLines(f))
  }

  // ---- Merging ----

  /** Appends the items that are not there yet, in order. */
  function AddItems(have: seq<Item>, more: seq<Item>): seq<Item>
    decreases |more|
  {
    if more == [] then have
    else AddItems(if more[0] in have then have else have + [more[0]], more[1..])
  }

  function AddFragment(s: Sections, f: Fragment): Sections {
    var k := HeadingOf(f);
    if k in s.items then s.(items := s.items[k := AddItems(s.items[k], FragmentItems(f))]) else s
  }

  function AddFragments(s: Sections, fs: seq<Fragment>): Sections
    decreases |fs|
  {
    if fs == [] then s else AddFragments(AddFragment(s, fs[0]), fs[1..])
  }

  // ---- Printing ----

  function Block(k: string, its: seq<Item>): seq<string> {
    [k, ""] + Spread(its)
  }

  /** The headings of `ks` that have items. */
  function Shown(s: Sections, ks: seq<string>): seq<string> {
    if ks == [] then []
    else (if ks[0] in s.items && s.items[ks[0]] != [] then [ks[0]] else []) + Shown(s, ks[1..])
  }

  /** Blocks separated by one blank line. */
  function PrintBlocks(s: Sections, ks: seq<string>): seq<string>
    requires forall k :: k in ks ==> k in s.items
  {
    if ks == [] then []
    else if |ks| == 1 then Block(ks[0], s.items[ks[0]])
    else Block(ks[0], s.items[ks[0]]) + [""] + PrintBlocks(s, ks[1..])
  }

  lemma ShownAreSections(s: Sections, ks: seq<string>)
    ensures forall k :: k in Shown(s, ks) <==> k in ks && k in s.items && s.items[k] != []
  {
  }

  function ShownKeys(s: Sections): (ks: seq<string>)
    ensures forall k :: k in ks ==> k in s.items && s.items[k] != []
  {
    ShownAreSections(s, HEADINGS + s.extras);
    Shown(s, HEADINGS + s.extras)
  }

  function Printed(s: Sections): seq<string> {
    PrintBlocks(s, ShownKeys(s))
  }

  // ---- The release within the changelog ----

  predicate AllIn(s: string, cs: set<char>) {
    forall i :: 0 <= i < |s| ==> s[i] in cs
  }

  /** `dddd-dd-dd` */
  predicate IsDate(s: string) {
    && |s| == 10
    && s[4] == '-' && s[7] == '-'
    && forall i :: 0 <= i < 10 && i != 4 && i != 7 ==> IsDigit(s[i])
  }

  /** The heading line to assemble under: Unreleased, or a dated version. */
  predicate IsTarget(into: Option<string>, l: string) {
    match into
    case None =>
      "## [Unreleased]" <= l && AllIn(l[15..], {' ', '\t'})
    case Some(version) =>
      var start := "## [" + version + "] - ";
      start <= l && |l| >= |start| + 10 && IsDate(l[|start|..|start| + 10]) && AllIn(l[|start| + 10..], {' ', '\t'})
  }

  function FindTarget(into: Option<string>, ls: seq<string>, i: nat): (h: nat)
    requires i <= |ls|
    ensures i <= h <= |ls|
    ensures forall j :: i <= j < h ==> !IsTarget(into, ls[j])
    ensures h < |ls| ==> IsTarget(into, ls[h])
    decreases |ls| - i
  {
    if i == |ls| || IsTarget(into, ls[i]) then i else FindTarget(into, ls, i + 1)
  }

  function FindRelease(ls: seq<string>, i: nat): (n: nat)
    requires i <= |ls|
    ensures i <= n <= |ls|
    ensures forall j :: i <= j < n ==> !IsRelease(ls[j])
    ensures n < |ls| ==> IsRelease(ls[n])
    decreases |ls| - i
  {
    if i == |ls| || IsRelease(ls[i]) then i else FindRelease(ls, i + 1)
  }

  /** The pieces of the text between the end of the heading line `h` and the next release `n`. */
  function RegionPieces(ls: seq<string>, h: nat, n: nat): seq<string>
    requires h < n <= |ls|
  {
    [""] + ls[h + 1..n] + (if n < |ls| then [""] else [])
  }

  function After(ls: seq<string>, n: nat): seq<string>
    requires n <= |ls|
  {
    if n < |ls| then ls[n..] else [""]
  }

  /** The whole changelog with the lines of a release replaced. */
  function Spliced(ls: seq<string>, h: nat, n: nat, p: seq<string>): seq<string>
    requires h < n <= |ls|
  {
    ls[..h + 1] + ([""] + p + [""]) + After(ls, n)
  }

  // ---- The whole script ----

  datatype Outcome = Refused | NoFragments | NoHeading | Written(text: string)

  function SectionsIn(into: Option<string>, ls: seq<string>): Option<Sections> {
    var h := FindTarget(into, ls, 0);
    if h == |ls| then None else Some(ReadSections(RegionPieces(ls, h, FindRelease(ls, h + 1))))
  }

  function WithSections(into: Option<string>, ls: seq<string>, s: Sections): seq<string> {
    var h := FindTarget(into, ls, 0);
    if h == |ls| then ls else Spliced(ls, h, FindRelease(ls, h + 1), Printed(s))
  }

  predicate AllValid(fs: seq<Fragment>) {
    forall i :: 0 <= i < |fs| ==> ValidFragment(fs[i])
  }

  /** What the script does to the changelog text. */
  function Assemble(into: Option<string>, text: string, fs: seq<Fragment>): Outcome {
    if !AllValid(fs) then Refused
    else if fs == [] then NoFragments
    else
      match SectionsIn(into, Split(text))
      case None => NoHeading
      case Some(s) => Written(Unlines(WithSections(into, Split(text), AddFragments(s, fs))))
  }
}
