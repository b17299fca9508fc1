/** Printed sections read back: what the section reader finds in the text the printer wrote. */
module ChangelogReadBack {
  import opened TextLines
  import opened ChangelogItems
  import opened Changelog
  import opened Wrappers

  // ---- Sections as the reader and the validated fragments build them ----

  /** A line that is neither a section heading nor a release heading. */
  predicate Plain(l: string) {
    OneLine(l) && !IsTitle(l) && !IsRelease(l)
  }

  predicate AllPlain(ls: seq<string>) {
    forall i :: 0 <= i < |ls| ==> Plain(ls[i])
  }

  predicate GoodItem(item: Item) {
    Shaped(item) && AllPlain(item)
  }

  predicate GoodItems(its: seq<Item>) {
    forall i :: 0 <= i < |its| ==> GoodItem(its[i])
  }

  /** What is left of a `### ` heading after stripping; an empty title leaves the bare mark. */
  predicate StrippedTitle(k: string) {
    OneLine(k) && Strip(k) == k && (IsTitle(k) || k == "###") && !IsRelease(k)
  }

  predicate Distinct(ks: seq<string>) {
    forall i, j :: 0 <= i < j < |ks| ==> ks[i] != ks[j]
  }

  predicate GoodExtras(extras: seq<string>) {
    Distinct(extras) && forall k :: k in extras ==> k !in HEADINGS && StrippedTitle(k)
  }

  ghost predicate Good(s: Sections) {
    && (forall k :: k in s.items <==> k in HEADINGS || k in s.extras)
    && GoodExtras(s.extras)
    && (forall k :: k in s.items ==> GoodItems(s.items[k]))
  }

  lemma PlainTitle(k: string)
    requires IsTitle(k) && OneLine(k) && !IsSpace(k[|k| - 1])
    ensures StrippedTitle(k)
  {
    assert k[0] == '#' && k[2] == '#';
    assert Lstrip(k) == k;
  }

  lemma HeadingsAreTitles()
    ensures forall k :: k in HEADINGS ==> IsTitle(k) && StrippedTitle(k)
    ensures Distinct(HEADINGS)
  {
    forall k | k in HEADINGS ensures IsTitle(k) && StrippedTitle(k) {
      assert IsTitle(k) && k[|k| - 1] in {'g', 'y', 'd'};
      PlainTitle(k);
    }
    assert HEADINGS[0][4] == 'B' && HEADINGS[1][4] == 'S' && HEADINGS[2][4] == 'A' && HEADINGS[3][4] == 'C' && HEADINGS[4][4] == 'F';
  }

  lemma RstripPlain(l: string)
    requires Plain(l)
    ensures Plain(Rstrip(l))
  {
  }

  lemma TrimLastPlain(cur: seq<string>)
    requires cur != [] && AllPlain(cur)
    ensures AllPlain(TrimLast(cur))
  {
    RstripPlain(cur[|cur| - 1]);
  }

  lemma ParsedArePlain(lines: seq<string>, cur: seq<string>)
    requires AllPlain(lines) && AllPlain(cur)
    ensures forall i :: 0 <= i < |ParseFrom(lines, cur)| ==> AllPlain(ParseFrom(lines, cur)[i])
  {
    if cur != [] {
      TrimLastPlain(cur);
    }
    if lines != [] {
      if IsBullet(lines[0]) {
        ParsedArePlain(lines[1..], [lines[0]]);
      } else if Blank(lines[0]) {
        ParsedArePlain(lines[1..], []);
      } else if cur != [] {
        ParsedArePlain(lines[1..], cur + [lines[0]]);
      } else {
        ParsedArePlain(lines[1..], []);
      }
    }
  }

  lemma ItemsAreGood(lines: seq<string>)
    requires AllPlain(lines)
    ensures GoodItems(ItemsOf(lines))
  {
    ParsedAreShaped(lines, []);
    ParsedArePlain(lines, []);
  }

  lemma StripTitle(l: string)
    requires IsTitle(l) && OneLine(l)
    ensures StrippedTitle(Strip(l))
  {
    assert l[0] == '#';
    assert Lstrip(l) == l;
    RstripKeeps(l, "###");
    var k := Rstrip(l);
    assert k[0] == '#';
    assert Lstrip(k) == k && Rstrip(k) == k;
    if !IsTitle(k) {
      assert k <= l && "###" <= k;
      assert |k| == 3;
    }
  }

  ghost predicate GoodGrouping(g: Grouping) {
    && (forall k :: k in g.lines <==> k in HEADINGS || k in g.extras)
    && GoodExtras(g.extras)
    && (forall k :: k in g.lines ==> AllPlain(g.lines[k]))
  }

  lemma GroupLineGood(g: Grouping, l: string)
    requires GoodGrouping(g) && OneLine(l) && !IsRelease(l)
    ensures GoodGrouping(GroupLine(g, l))
  {
    if IsTitle(l) {
      StripTitle(l);
    }
  }

  lemma GroupedGood(ls: seq<string>, g: Grouping)
    requires GoodGrouping(g)
    requires forall i :: 0 <= i < |ls| ==> OneLine(ls[i]) && !IsRelease(ls[i])
    ensures GoodGrouping(Grouped(ls, g))
  {
    if ls != [] {
      GroupLineGood(g, ls[0]);
      GroupedGood(ls[1..], GroupLine(g, ls[0]));
    }
  }

  lemma NoLinesGood()
    ensures GoodGrouping(NO_LINES)
  {
  }

  lemma ReadIsGood(pieces: seq<string>)
    requires forall i :: 0 <= i < |pieces| ==> OneLine(pieces[i]) && !IsRelease(pieces[i])
    ensures Good(ReadSections(pieces))
  {
    NoLinesGood();
    GroupedGood(pieces, NO_LINES);
    var g := Grouped(pieces, NO_LINES);
    forall k | k in g.lines ensures GoodItems(ItemsOf(g.lines[k])) {
      ItemsAreGood(g.lines[k]);
    }
  }

  // ---- Reading a printed block ----

  lemma GroupedAppend(a: seq<string>, b: seq<string>, g: Grouping)
    ensures Grouped(a + b, g) == Grouped(b, Grouped(a, g))
  {
    if a == [] {
      assert a + b == b;
    } else {
      GroupedAppend(a[1..], b, GroupLine(g, a[0]));
      assert (a + b)[1..] == a[1..] + b;
    }
  }

  /** Lines that are no headings go to the current section. */
  lemma {:induction false} GroupedBody(ls: seq<string>, g: Grouping)
    requires forall i :: 0 <= i < |ls| ==> !IsTitle(ls[i])
    requires g.current.Some? && g.current.value in g.lines
    ensures Grouped(ls, g) == g.(lines := g.lines[g.current.value := g.lines[g.current.value] + ls])
  {
    var k := g.current.value;
    if ls == [] {
      assert g.lines[k] + ls == g.lines[k];
      assert g.lines[k := g.lines[k] + ls] == g.lines;
    } else {
      GroupedBody(ls[1..], GroupLine(g, ls[0]));
      assert g.lines[k] + [ls[0]] + ls[1..] == g.lines[k] + ls;
    }
  }

  lemma SpreadPlain(its: seq<Item>)
    requires GoodItems(its)
    ensures AllPlain(Spread(its))
  {
    if |its| > 1 {
      SpreadPlain(its[1..]);
    }
  }

  /** The body the reader collects for a printed block that a blank line follows. */
  function BodyOf(its: seq<Item>): seq<string> {
    [""] + Spread(its) + [""]
  }

  function Started(g: Grouping, k: string): Grouping {
    if k in g.lines then g.(current := Some(k)) else Grouping(Some(k), g.extras + [k], g.lines[k := []])
  }

  lemma GroupedBlock(k: string, its: seq<Item>, g: Grouping)
    requires IsTitle(k) && StrippedTitle(k) && GoodItems(its)
    requires k in g.lines ==> g.lines[k] == []
    ensures Grouped(Block(k, its) + [""], g) ==
            var h := Started(g, k); h.(lines := h.lines[k := BodyOf(its)])
  {
    var h := Started(g, k);
    var ls := Block(k, its) + [""];
    assert ls[1..] == BodyOf(its);
    assert GroupLine(g, k) == h;
    SpreadPlain(its);
    GroupedBody(BodyOf(its), h);
    assert [] + BodyOf(its) == BodyOf(its);
  }

  /** Blocks, each followed by one blank line. */
  function Blocks(s: Sections, ks: seq<string>): seq<string>
    requires forall k :: k in ks ==> k in s.items
  {
    if ks == [] then [] else Block(ks[0], s.items[ks[0]]) + [""] + Blocks(s, ks[1..])
  }

  lemma PrintThenBlank(s: Sections, ks: seq<string>)
    requires ks != [] && forall k :: k in ks ==> k in s.items
    ensures PrintBlocks(s, ks) + [""] == Blocks(s, ks)
  {
    if |ks| > 1 {
      PrintThenBlank(s, ks[1..]);
      var b := Block(ks[0], s.items[ks[0]]) + [""];
      assert b + PrintBlocks(s, ks[1..]) + [""] == b + (PrintBlocks(s, ks[1..]) + [""]);
    } else {
      assert Blocks(s, ks[1..]) == [];
      assert Block(ks[0], s.items[ks[0]]) + [""] + [] == Block(ks[0], s.items[ks[0]]) + [""];
    }
  }

  /** The headings of `ks` that are not among `heads`. */
  function Without(ks: seq<string>, heads: seq<string>): seq<string> {
    if ks == [] then [] else (if ks[0] in heads then [] else [ks[0]]) + Without(ks[1..], heads)
  }

  /** Ready to read the blocks of `ks`: nothing has been collected for them yet. */
  predicate Awaits(g: Grouping, ks: seq<string>, heads: seq<string>) {
    && Distinct(ks)
    && (forall k :: k in ks ==> (k in g.lines <==> k in heads))
    && (forall k :: k in ks && k in g.lines ==> g.lines[k] == [])
  }

  lemma DistinctTail(ks: seq<string>)
    requires Distinct(ks) && ks != []
    ensures Distinct(ks[1..]) && ks[0] !in ks[1..]
  {
  }

  /** `r` is `g` with the blocks of `ks` collected. */
  ghost predicate Collected(s: Sections, ks: seq<string>, heads: seq<string>, g: Grouping, r: Grouping)
    requires forall k :: k in ks ==> k in s.items
  {
    && r.extras == g.extras + Without(ks, heads)
    && (forall k :: k in r.lines <==> k in g.lines || k in ks)
    && (forall k :: k in ks ==> r.lines[k] == BodyOf(s.items[k]))
    && (forall k :: k in g.lines && k !in ks ==> r.lines[k] == g.lines[k])
    && r.current == if ks == [] then g.current else Some(ks[|ks| - 1])
  }

  predicate Printable(s: Sections, k: string) {
    k in s.items && IsTitle(k) && StrippedTitle(k) && GoodItems(s.items[k])
  }

  lemma {:induction false} CollectedStep(s: Sections, ks: seq<string>, heads: seq<string>, g: Grouping, h: Grouping, r: Grouping)
    requires ks != [] && Awaits(g, ks, heads) && forall k :: k in ks ==> k in s.items
    requires h == Started(g, ks[0]).(lines := Started(g, ks[0]).lines[ks[0] := BodyOf(s.items[ks[0]])])
    requires Collected(s, ks[1..], heads, h, r)
    ensures Collected(s, ks, heads, g, r)
  {
    var k, rest := ks[0], ks[1..];
    DistinctTail(ks);
    var first := if k in heads then [] else [k];
    Regroup(g.extras, first, Without(rest, heads));
    assert g.extras + [] == g.extras;
    assert forall x :: x in ks <==> x == k || x in rest;
  }

  lemma {:induction false} GroupedBlocks(s: Sections, ks: seq<string>, heads: seq<string>, g: Grouping)
    requires forall k :: k in ks ==> k in s.items
    requires forall k :: k in ks ==> Printable(s, k)
    requires Awaits(g, ks, heads)
    ensures Collected(s, ks, heads, g, Grouped(Blocks(s, ks), g))
  {
    if ks == [] {
      assert g.extras + [] == g.extras;
    } else {
      var k, rest := ks[0], ks[1..];
      DistinctTail(ks);
      assert Printable(s, k);
      GroupedAppend(Block(k, s.items[k]) + [""], Blocks(s, rest), g);
      GroupedBlock(k, s.items[k], g);
      var h := Started(g, k).(lines := Started(g, k).lines[k := BodyOf(s.items[k])]);
      assert Grouped(Blocks(s, ks), g) == Grouped(Blocks(s, rest), h);
      assert Awaits(h, rest, heads);
      GroupedBlocks(s, rest, heads, h);
      CollectedStep(s, ks, heads, g, h, Grouped(Blocks(s, rest), h));
    }
  }

  lemma BodyReadsBack(its: seq<Item>)
    requires AllShaped(its)
    ensures ItemsOf(BodyOf(its)) == Readable(its)
    ensures ItemsOf(BodyOf(its) + [""]) == Readable(its)
  {
    ParseTrailingBlank(BodyOf(its), []);
    ParseTrailingBlank([""] + Spread(its), []);
    ParseLeadingBlank(Spread(its));
    PrintedItemsReadBack(its);
  }

  // ---- Reading a printed release ----

  /** What of some sections the reader finds again: the sections that have items, less bare bullets. */
  function Visible(s: Sections): Sections {
    var extras := Shown(s, s.extras);
    Sections(extras, map k | k in HEADINGS + extras :: if k in s.items then Readable(s.items[k]) else [])
  }

  /** Every section that is printed has a title. */
  predicate Titled(s: Sections) {
    forall k :: k in ShownKeys(s) ==> IsTitle(k)
  }

  lemma {:induction false} ShownAppend(s: Sections, a: seq<string>, b: seq<string>)
    ensures Shown(s, a + b) == Shown(s, a) + Shown(s, b)
  {
    if a == [] {
      assert a + b == b;
    } else {
      ShownAppend(s, a[1..], b);
      assert (a + b)[1..] == a[1..] + b && (a + b)[0] == a[0];
      var first := if a[0] in s.items && s.items[a[0]] != [] then [a[0]] else [];
      Regroup(first, Shown(s, a[1..]), Shown(s, b));
    }
  }

  lemma ShownDistinct(s: Sections, ks: seq<string>)
    requires Distinct(ks)
    ensures Distinct(Shown(s, ks))
  {
    ShownAreSections(s, ks);
    if ks != [] {
      DistinctTail(ks);
      ShownDistinct(s, ks[1..]);
      ShownAreSections(s, ks[1..]);
    }
  }

  lemma {:induction false} WithoutAppend(a: seq<string>, b: seq<string>, heads: seq<string>)
    ensures Without(a + b, heads) == Without(a, heads) + Without(b, heads)
  {
    if a == [] {
      assert a + b == b;
    } else {
      WithoutAppend(a[1..], b, heads);
      assert (a + b)[1..] == a[1..] + b && (a + b)[0] == a[0];
      var first := if a[0] in heads then [] else [a[0]];
      Regroup(first, Without(a[1..], heads), Without(b, heads));
    }
  }

  lemma WithoutAllOrNone(ks: seq<string>, heads: seq<string>)
    ensures (forall k :: k in ks ==> k !in heads) ==> Without(ks, heads) == ks
    ensures (forall k :: k in ks ==> k in heads) ==> Without(ks, heads) == []
  {
    if ks != [] {
      WithoutAllOrNone(ks[1..], heads);
      assert ks == [ks[0]] + ks[1..];
    }
  }

  lemma DistinctAppend(a: seq<string>, b: seq<string>)
    requires Distinct(a) && Distinct(b) && forall k :: k in b ==> k !in a
    ensures Distinct(a + b)
  {
    forall i, j | 0 <= i < j < |a + b| ensures (a + b)[i] != (a + b)[j] {
      if i < |a| <= j {
        assert (a + b)[i] in a && (a + b)[j] in b;
      }
    }
  }

  lemma ShownOver(s: Sections, heads: seq<string>, extras: seq<string>)
    requires Distinct(heads) && Distinct(extras) && forall k :: k in extras ==> k !in heads
    ensures Distinct(Shown(s, heads + extras))
    ensures Without(Shown(s, heads + extras), heads) == Shown(s, extras)
    ensures forall k :: k in Shown(s, heads + extras) ==> k in heads || k in extras
  {
    DistinctAppend(heads, extras);
    ShownDistinct(s, heads + extras);
    ShownAppend(s, heads, extras);
    WithoutAppend(Shown(s, heads), Shown(s, extras), heads);
    ShownAreSections(s, heads);
    ShownAreSections(s, extras);
    WithoutAllOrNone(Shown(s, heads), heads);
    WithoutAllOrNone(Shown(s, extras), heads);
  }

  lemma ShownKeysFacts(s: Sections)
    requires Good(s)
    ensures Distinct(ShownKeys(s))
    ensures Without(ShownKeys(s), HEADINGS) == Shown(s, s.extras)
    ensures forall k :: k in ShownKeys(s) ==> StrippedTitle(k)
  {
    HeadingsAreTitles();
    ShownOver(s, HEADINGS, s.extras);
  }

  /** The pieces the reader gets of a release the script has just printed. */
  function PrintedPieces(s: Sections): seq<string> {
    ["", ""] + Printed(s) + ["", ""]
  }

  lemma GroupedNothing(n: nat)
    requires n <= 4
    ensures Grouped(["", "", "", ""][..n], NO_LINES) == NO_LINES
  {
    if n > 0 {
      assert ["", "", "", ""][..n][1..] == ["", "", "", ""][..n - 1];
      GroupedNothing(n - 1);
    }
  }

  lemma GroupedFramed(ls: seq<string>)
    ensures Grouped(["", ""] + (ls + [""]), NO_LINES) == Grouped([""], Grouped(ls, NO_LINES))
  {
    GroupedAppend(["", ""], ls + [""], NO_LINES);
    assert ["", "", "", ""][..2] == ["", ""];
    GroupedNothing(2);
    GroupedAppend(ls, [""], NO_LINES);
  }

  lemma {:induction false} ShownBlocksGrouped(s: Sections)
    requires Good(s) && Titled(s)
    ensures forall k :: k in ShownKeys(s) ==> k in s.items
    ensures Collected(s, ShownKeys(s), HEADINGS, NO_LINES, Grouped(Blocks(s, ShownKeys(s)), NO_LINES))
  {
    ShownKeysFacts(s);
    GroupedBlocks(s, ShownKeys(s), HEADINGS, NO_LINES);
  }

  /** The shown sections' bodies are grouped under their headings, the last with the blank line that
      follows it, and nothing is grouped under the other headings. */
  ghost predicate GroupsShown(s: Sections, g: Grouping) {
    && g.extras == Shown(s, s.extras)
    && (forall k :: k in g.lines <==> k in HEADINGS || k in ShownKeys(s))
    && (forall k :: k in ShownKeys(s) ==>
          k in s.items && (g.lines[k] == BodyOf(s.items[k]) || g.lines[k] == BodyOf(s.items[k]) + [""]))
    && (forall k :: k in g.lines && k !in ShownKeys(s) ==> g.lines[k] == [])
  }

  lemma {:induction false} BlankAfterBlocks(s: Sections, r: Grouping)
    requires ShownKeys(s) != [] && Without(ShownKeys(s), HEADINGS) == Shown(s, s.extras)
    requires forall k :: k in ShownKeys(s) ==> k in s.items
    requires Collected(s, ShownKeys(s), HEADINGS, NO_LINES, r)
    ensures GroupsShown(s, Grouped([""], r))
  {
    GroupedBody([""], r);
    assert NO_LINES.extras + Without(ShownKeys(s), HEADINGS) == Without(ShownKeys(s), HEADINGS);
  }

  lemma {:induction false} PrintedPiecesAre(s: Sections)
    requires ShownKeys(s) != [] && forall k :: k in ShownKeys(s) ==> k in s.items
    ensures PrintedPieces(s) == ["", ""] + (Blocks(s, ShownKeys(s)) + [""])
  {
    PrintThenBlank(s, ShownKeys(s));
  }

  lemma {:induction false} GroupedPrinted(s: Sections)
    requires Good(s) && Titled(s) && ShownKeys(s) != []
    ensures GroupsShown(s, Grouped(PrintedPieces(s), NO_LINES))
  {
    var ks := ShownKeys(s);
    ShownKeysFacts(s);
    ShownBlocksGrouped(s);
    PrintedPiecesAre(s);
    GroupedFramed(Blocks(s, ks));
    BlankAfterBlocks(s, Grouped(Blocks(s, ks), NO_LINES));
  }

  lemma GroupedUnprinted(s: Sections)
    requires ShownKeys(s) == []
    ensures Grouped(PrintedPieces(s), NO_LINES) == NO_LINES
  {
    assert Printed(s) == [];
    assert PrintedPieces(s) == ["", "", "", ""][..4];
    GroupedNothing(4);
  }

  lemma VisibleItems(s: Sections, g: Grouping, k: string)
    requires Good(s) && k in g.lines
    requires k in ShownKeys(s) ==> g.lines[k] == BodyOf(s.items[k]) || g.lines[k] == BodyOf(s.items[k]) + [""]
    requires k !in ShownKeys(s) ==> g.lines[k] == [] && k in s.items && s.items[k] == []
    ensures ItemsOf(g.lines[k]) == Readable(s.items[k])
  {
    if k in ShownKeys(s) {
      BodyReadsBack(s.items[k]);
    }
  }

  lemma ShownKeysAre(s: Sections, heads: seq<string>, extras: seq<string>)
    ensures forall k :: k in Shown(s, heads + extras) <==> (k in heads || k in extras) && k in s.items && s.items[k] != []
    ensures forall k :: k in heads || k in Shown(s, heads + extras) <==> k in heads + Shown(s, extras)
  {
    ShownAppend(s, heads, extras);
    ShownAreSections(s, heads);
    ShownAreSections(s, extras);
  }

  lemma NoneShown(s: Sections)
    requires ShownKeys(s) == []
    ensures Shown(s, s.extras) == []
  {
    ShownAppend(s, HEADINGS, s.extras);
  }

  lemma {:induction false} GroupsAreVisible(s: Sections, g: Grouping)
    requires Good(s) && GroupsShown(s, g)
    ensures Sections(g.extras, map k | k in g.lines :: ItemsOf(g.lines[k])) == Visible(s)
  {
    ShownKeysAre(s, HEADINGS, s.extras);
    forall k | k in g.lines ensures k in s.items && ItemsOf(g.lines[k]) == Readable(s.items[k]) {
      VisibleItems(s, g, k);
    }
  }

  /** Reading back a printed release gives its sections: every titled section that has items, in
      order, with every item that is not a bare bullet. */
  lemma {:induction false} PrintedReadsBack(s: Sections)
    requires Good(s) && Titled(s)
    ensures ReadSections(PrintedPieces(s)) == Visible(s)
  {
    var g := Grouped(PrintedPieces(s), NO_LINES);
    if ShownKeys(s) == [] {
      GroupedUnprinted(s);
      NoneShown(s);
    } else {
      GroupedPrinted(s);
    }
    GroupsAreVisible(s, g);
  }
}
