/** Exactly when assembling in two steps equals assembling at once, and when assembling again
    changes nothing (scripts/changelog-assemble.py, `assemble`). */
module ChangelogExact {
  import opened TextLines
  import opened ChangelogItems
  import opened Changelog
  import opened ChangelogReadBack
  import opened ChangelogAssembly
  import opened Wrappers

  // ---- A printed release determines its sections ----

  /** The runs of lines between empty lines. */
  function Paragraphs(lines: seq<string>, cur: seq<string>): seq<seq<string>> {
    if lines == [] then (if cur == [] then [] else [cur])
    else if lines[0] == "" then (if cur == [] then [] else [cur]) + Paragraphs(lines[1..], [])
    else Paragraphs(lines[1..], cur + [lines[0]])
  }

  predicate NoEmptyLine(ls: seq<string>) {
    forall i :: 0 <= i < |ls| ==> ls[i] != ""
  }

  lemma ParagraphOf(p: seq<string>, rest: seq<string>, cur: seq<string>)
    requires NoEmptyLine(p) && (p != [] || cur != [])
    ensures Paragraphs(p + [""] + rest, cur) == [cur + p] + Paragraphs(rest, [])
  {
    if p == [] {
      assert p + [""] + rest == [""] + rest && ([""] + rest)[1..] == rest;
      assert cur + p == cur;
    } else {
      ParagraphOf(p[1..], rest, cur + [p[0]]);
      assert (p + [""] + rest)[1..] == p[1..] + [""] + rest;
      assert cur + [p[0]] + p[1..] == cur + p;
    }
  }

  lemma ShapedHasNoEmptyLine(item: Item)
    requires Shaped(item)
    ensures NoEmptyLine(item)
  {
    BulletIsNotBlank(item[0]);
  }

  lemma {:induction false} SpreadParagraphs(its: seq<Item>, rest: seq<string>)
    requires AllShaped(its) && its != []
    ensures Paragraphs(Spread(its) + [""] + rest, []) == its + Paragraphs(rest, [])
  {
    var first, others := its[0], its[1..];
    assert its == [first] + others;
    ShapedHasNoEmptyLine(first);
    assert [] + first == first;
    if others == [] {
      ParagraphOf(first, rest, []);
    } else {
      var after := Spread(others) + [""] + rest;
      assert Spread(its) + [""] + rest == first + [""] + after;
      ParagraphOf(first, after, []);
      SpreadParagraphs(others, rest);
      assert [first] + (others + Paragraphs(rest, [])) == its + Paragraphs(rest, []);
    }
  }

  /** The paragraphs of printed sections: each heading, then its items. */
  function Listed(s: Sections, ks: seq<string>): seq<seq<string>>
    requires forall k :: k in ks ==> k in s.items
  {
    if ks == [] then [] else [[ks[0]]] + s.items[ks[0]] + Listed(s, ks[1..])
  }

  predicate Listable(s: Sections, k: string) {
    k in s.items && k != "" && k[0] == '#' && s.items[k] != [] && AllShaped(s.items[k])
  }

  lemma BlocksParagraphs(s: Sections, ks: seq<string>)
    requires forall k :: k in ks ==> k in s.items
    requires forall k :: k in ks ==> Listable(s, k)
    ensures Paragraphs(Blocks(s, ks), []) == Listed(s, ks)
  {
    if ks != [] {
      var k, its, rest := ks[0], s.items[ks[0]], Blocks(s, ks[1..]);
      assert Listable(s, k);
      BlocksParagraphs(s, ks[1..]);
      assert Blocks(s, ks) == [k] + [""] + (Spread(its) + [""] + rest);
      ParagraphOf([k], Spread(its) + [""] + rest, []);
      assert [] + [k] == [k];
      SpreadParagraphs(its, rest);
      assert [[k]] + (its + Listed(s, ks[1..])) == Listed(s, ks);
    }
  }

  predicate StartsWithItem(ps: seq<seq<string>>) {
    ps != [] && ps[0] != [] && ps[0][0] != "" && ps[0][0][0] == '-'
  }

  lemma HeadStartsWithItem(a: seq<Item>, x: seq<seq<string>>)
    requires AllShaped(a)
    ensures if a == [] then a + x == x else StartsWithItem(a + x)
  {
    if a != [] {
      assert (a + x)[0] == a[0];
      BulletIsNotBlank(a[0][0]);
    }
  }

  lemma {:induction false} SameItems(a: seq<Item>, x: seq<seq<string>>, b: seq<Item>, y: seq<seq<string>>)
    requires AllShaped(a) && AllShaped(b) && a + x == b + y
    requires !StartsWithItem(x) && !StartsWithItem(y)
    ensures a == b && x == y
  {
    HeadStartsWithItem(a, x);
    HeadStartsWithItem(b, y);
    if a != [] && b != [] {
      assert a[0] == (a + x)[0] == (b + y)[0] == b[0];
      assert (a + x)[1..] == a[1..] + x && (b + y)[1..] == b[1..] + y;
      SameItems(a[1..], x, b[1..], y);
    }
  }

  lemma ListedStartsWithHeading(s: Sections, ks: seq<string>)
    requires forall k :: k in ks ==> k in s.items
    requires forall k :: k in ks ==> Listable(s, k)
    ensures !StartsWithItem(Listed(s, ks))
  {
    if ks != [] {
      assert Listable(s, ks[0]);
    }
  }

  lemma SameHead(k: string, x: seq<seq<string>>, l: string, y: seq<seq<string>>)
    requires [[k]] + x == [[l]] + y
    ensures k == l && x == y
  {
    assert [k] == ([[k]] + x)[0] == ([[l]] + y)[0] == [l];
    assert k == [k][0] == [l][0] == l;
    assert x == ([[k]] + x)[1..] == ([[l]] + y)[1..] == y;
  }

  lemma {:induction false} ListedDetermines(s: Sections, ks: seq<string>, t: Sections, ls: seq<string>)
    requires forall k :: k in ks ==> k in s.items
    requires forall k :: k in ls ==> k in t.items
    requires forall k :: k in ks ==> Listable(s, k)
    requires forall k :: k in ls ==> Listable(t, k)
    requires Listed(s, ks) == Listed(t, ls)
    ensures ks == ls && forall k :: k in ks ==> s.items[k] == t.items[k]
  {
    if ks != [] && ls != [] {
      var a, b := s.items[ks[0]], t.items[ls[0]];
      var x, y := Listed(s, ks[1..]), Listed(t, ls[1..]);
      assert Listed(s, ks) == [[ks[0]]] + (a + x) && Listed(t, ls) == [[ls[0]]] + (b + y);
      SameHead(ks[0], a + x, ls[0], b + y);
      assert Listable(s, ks[0]) && Listable(t, ls[0]);
      ListedStartsWithHeading(s, ks[1..]);
      ListedStartsWithHeading(t, ls[1..]);
      SameItems(a, x, b, y);
      ListedDetermines(s, ks[1..], t, ls[1..]);
    }
  }

  lemma ShownAreListable(s: Sections)
    requires Good(s)
    ensures forall k :: k in ShownKeys(s) ==> k in s.items
    ensures forall k :: k in ShownKeys(s) ==> Listable(s, k)
  {
    ShownKeysFacts(s);
    forall k | k in ShownKeys(s) ensures Listable(s, k) {
      assert StrippedTitle(k);
      assert k[0] == '#';
    }
  }

  lemma PrintedParagraphs(s: Sections)
    requires Good(s)
    ensures Paragraphs(Printed(s) + [""], []) == Listed(s, ShownKeys(s))
  {
    ShownAreListable(s);
    if ShownKeys(s) == [] {
      assert Printed(s) + [""] == [""] && [""][1..] == [];
    } else {
      PrintThenBlank(s, ShownKeys(s));
      BlocksParagraphs(s, ShownKeys(s));
    }
  }

  lemma {:induction false} PrintedDetermines(s: Sections, t: Sections)
    requires Good(s) && Good(t) && Printed(s) == Printed(t)
    ensures ShownKeys(s) == ShownKeys(t)
    ensures forall k :: k in ShownKeys(s) ==> k in s.items && k in t.items && s.items[k] == t.items[k]
  {
    ShownAreListable(s);
    ShownAreListable(t);
    var ks, ls := ShownKeys(s), ShownKeys(t);
    PrintedParagraphs(s);
    PrintedParagraphs(t);
    ListedDetermines(s, ks, t, ls);
  }

  lemma SplicedMiddle(ls: seq<string>, h: nat, n: nat, p: seq<string>)
    requires h < n <= |ls|
    ensures h + 2 + |p| <= |Spliced(ls, h, n, p)|
    ensures Spliced(ls, h, n, p)[h + 2..h + 2 + |p|] == p
  {
    var out := Spliced(ls, h, n, p);
    assert out == (ls[..h + 1] + [""]) + p + ([""] + After(ls, n));
  }

  lemma SplicedDetermines(ls: seq<string>, h: nat, n: nat, p: seq<string>, q: seq<string>)
    requires h < n <= |ls|
    ensures Spliced(ls, h, n, p) == Spliced(ls, h, n, q) <==> p == q
  {
    SplicedMiddle(ls, h, n, p);
    SplicedMiddle(ls, h, n, q);
    assert |Spliced(ls, h, n, p)| - |p| == |Spliced(ls, h, n, q)| - |q|;
  }

  /** Two results with the same text print the same release. */
  lemma {:induction false} TextDeterminesPrinted(into: Option<string>, ls: seq<string>, s: Sections, t: Sections)
    requires AllOneLine(ls) && SectionsIn(into, ls).Some? && Good(s) && Good(t)
    ensures Unlines(WithSections(into, ls, s)) == Unlines(WithSections(into, ls, t)) <==> Printed(s) == Printed(t)
  {
    ReplacedAgain(into, ls, s, t);
    ReplacedAgain(into, ls, t, s);
    UnlinesInjective(WithSections(into, ls, s), WithSections(into, ls, t));
    var h := FindTarget(into, ls, 0);
    SplicedDetermines(ls, h, FindRelease(ls, h + 1), Printed(s), Printed(t));
  }

  // ---- Headings without a title are not read back ----

  lemma TitlesOfBlocks(s: Sections, ks: seq<string>, l: string)
    requires forall k :: k in ks ==> k in s.items
    requires forall k :: k in ks ==> GoodItems(s.items[k])
    requires l in PrintBlocks(s, ks) && IsTitle(l)
    ensures l in ks
  {
    var k := ks[0];
    assert k in ks;
    SpreadPlain(s.items[k]);
    assert forall x :: x in Spread(s.items[k]) ==> Plain(x);
    if l !in Block(k, s.items[k]) {
      TitlesOfBlocks(s, ks[1..], l);
    }
  }

  lemma ExtrasComeFromTitles(ls: seq<string>, g: Grouping, k: string)
    requires k in Grouped(ls, g).extras && k !in g.extras
    ensures exists l :: l in ls && IsTitle(l) && Strip(l) == k
  {
    var h := GroupLine(g, ls[0]);
    if k in h.extras {
      assert ls[0] in ls && IsTitle(ls[0]) && Strip(ls[0]) == k;
    } else {
      ExtrasComeFromTitles(ls[1..], h, k);
      var l :| l in ls[1..] && IsTitle(l) && Strip(l) == k;
      assert l in ls;
    }
  }

  lemma UntitledIsNoExtra(s: Sections)
    requires Good(s)
    ensures "###" !in ReadSections(PrintedPieces(s)).extras
  {
    if "###" in ReadSections(PrintedPieces(s)).extras {
      ExtrasComeFromTitles(PrintedPieces(s), NO_LINES, "###");
      var l :| l in PrintedPieces(s) && IsTitle(l) && Strip(l) == "###";
      ShownKeysFacts(s);
      assert forall k :: k in ShownKeys(s) ==> Strip(k) == k;
      TitlesOfBlocks(s, ShownKeys(s), l);
    }
  }

  lemma UntitledIsLost(s: Sections)
    requires Good(s)
    ensures Good(ReadSections(PrintedPieces(s)))
    ensures "###" !in ReadSections(PrintedPieces(s)).items
  {
    PrintedUnreleased(s);
    ReadIsGood(PrintedPieces(s));
    UntitledIsNoExtra(s);
  }

  // ---- Bare bullets ----

  /** The first of `more` that is not in `have`. */
  function FirstNew(have: seq<Item>, more: seq<Item>): Option<Item> {
    if more == [] then None else if more[0] in have then FirstNew(have, more[1..]) else Some(more[0])
  }

  /** A section's bare bullet is lost when the section is read back; merging `more` restores the
      section when there is only one, it comes last, and it is the first thing `more` adds to the
      rest. */
  predicate BareComesBack(its: seq<Item>, more: seq<Item>) {
    BARE in its ==>
      && its[|its| - 1] == BARE
      && BARE !in its[..|its| - 1]
      && FirstNew(its[..|its| - 1], more) == Some(BARE)
  }

  lemma AddItemsFirstNew(have: seq<Item>, more: seq<Item>)
    ensures var all := AddItems(have, more);
            match FirstNew(have, more)
            case None => all == have
            case Some(it) => it !in have && |all| > |have| && all[|have|] == it
    decreases |more|
  {
    if more != [] && more[0] !in have {
      AddItemsConserves(have + [more[0]], more[1..]);
    }
  }

  lemma AddItemsSkips(have: seq<Item>, it: Item, more: seq<Item>)
    requires FirstNew(have, more) == Some(it)
    ensures AddItems(have, more) == AddItems(have + [it], more)
    decreases |more|
  {
    if more[0] in have {
      AddItemsSkips(have, it, more[1..]);
    } else {
      assert it in have + [it];
    }
  }

  lemma ReadableCons(it: Item, rest: seq<Item>, all: seq<Item>)
    requires all == [it] + rest
    ensures Readable(all) == (if it == BARE then [] else [it]) + Readable(rest)
  {
    assert all[1..] == rest;
  }

  lemma {:induction false} ReadableAppend(a: seq<Item>, b: seq<Item>)
    ensures Readable(a + b) == Readable(a) + Readable(b)
  {
    if a == [] {
      assert a + b == b;
      assert Readable(a) + Readable(b) == Readable(b);
    } else {
      ReadableAppend(a[1..], b);
      ReadableCons(a[0], a[1..], a);
      assert a + b == [a[0]] + (a[1..] + b);
      ReadableCons(a[0], a[1..] + b, a + b);
    }
  }

  lemma FirstBare(its: seq<Item>) returns (i: nat)
    requires BARE in its
    ensures i < |its| && its[i] == BARE && BARE !in its[..i]
  {
    if its[0] == BARE {
      i := 0;
    } else {
      assert its == [its[0]] + its[1..];
      i := FirstBare(its[1..]);
      assert its[..i + 1] == [its[0]] + its[1..][..i];
      i := i + 1;
    }
  }

  lemma {:induction false} ReadableAroundBare(y: seq<Item>, tail: seq<Item>)
    requires BARE !in y
    ensures Readable(y + ([BARE] + tail)) == y + Readable(tail)
  {
    ReadableIsAll(y);
    ReadableAppend(y, [BARE] + tail);
    assert ([BARE] + tail)[1..] == tail;
  }

  lemma BareLast(y: seq<Item>, more: seq<Item>)
    requires BARE !in y
    ensures Readable(y + [BARE]) == y
    ensures AddItems(y, more) == AddItems(y + [BARE], more) <==> BareComesBack(y + [BARE], more)
  {
    var its := y + [BARE];
    ReadableAroundBare(y, []);
    assert [BARE] + [] == [BARE] && y + [] == y;
    assert its[..|its| - 1] == y && BARE in its;
    AddItemsFirstNew(y, more);
    AddItemsConserves(its, more);
    if FirstNew(y, more) == Some(BARE) {
      AddItemsSkips(y, BARE, more);
    } else {
      assert AddItems(its, more)[|y|] == its[|y|] == BARE;
    }
  }

  /** Items that are all different from `i` on differ from items that repeat one there. */
  lemma RepeatedAt(a: seq<Item>, b: seq<Item>, i: nat)
    requires i <= |a| && AllDifferent(a[i..]) && i + 1 < |b| && b[i] == b[i + 1]
    ensures a != b
  {
    if i + 1 < |a| {
      assert a[i..][0] == a[i] && a[i..][1] == a[i + 1];
    }
  }

  lemma AtPrefix(p: seq<Item>, all: seq<Item>, i: nat)
    requires p <= all && i < |p|
    ensures all[i] == p[i]
  {
  }

  lemma BareThenRead(its: seq<Item>, more: seq<Item>, y: seq<Item>, tail: seq<Item>)
    requires its == y + ([BARE] + tail) && Readable(its) == y + Readable(tail) && Readable(tail) != []
    ensures AddItems(Readable(its), more) != AddItems(its, more)
  {
    ReadableIsAll(tail);
    AddItemsConserves(Readable(its), more);
    AddItemsConserves(its, more);
    var i := |y|;
    AtPrefix(Readable(its), AddItems(Readable(its), more), i);
    AtPrefix(its, AddItems(its, more), i);
    assert its[i] == BARE && Readable(its)[i] == Readable(tail)[0];
    assert Readable(tail)[0] in Readable(tail);
  }

  lemma BareThenBare(its: seq<Item>, more: seq<Item>, y: seq<Item>, tail: seq<Item>)
    requires its == y + ([BARE] + tail) && tail != [] && tail[0] == BARE && Readable(its) == y
    ensures AddItems(Readable(its), more) != AddItems(its, more)
  {
    AddItemsConserves(y, more);
    AddItemsConserves(its, more);
    var i := |y|;
    AtPrefix(its, AddItems(its, more), i);
    AtPrefix(its, AddItems(its, more), i + 1);
    assert its[i] == BARE && its[i + 1] == tail[0];
    RepeatedAt(AddItems(y, more), AddItems(its, more), i);
  }

  lemma {:induction false} BareThenMore(its: seq<Item>, more: seq<Item>, y: seq<Item>, tail: seq<Item>)
    requires its == y + ([BARE] + tail) && tail != [] && BARE !in y
    requires Readable(its) == y + Readable(tail)
    ensures AddItems(Readable(its), more) != AddItems(its, more)
  {
    if Readable(tail) != [] {
      BareThenRead(its, more, y, tail);
    } else {
      ReadableIsAll(tail);
      assert tail[0] in tail;
      assert y + [] == y;
      BareThenBare(its, more, y, tail);
    }
  }

  /** Losing the bare bullets before merging makes no difference exactly when they come back. */
  lemma {:induction false} BareExactly(its: seq<Item>, more: seq<Item>)
    ensures AddItems(Readable(its), more) == AddItems(its, more) <==> BareComesBack(its, more)
  {
    ReadableIsAll(its);
    if BARE in its {
      var i := FirstBare(its);
      var y, tail := its[..i], its[i + 1..];
      assert its == y + ([BARE] + tail);
      ReadableAroundBare(y, tail);
      if tail == [] {
        assert its == y + [BARE];
        BareLast(y, more);
      } else {
        BareThenMore(its, more, y, tail);
        assert its[..|its| - 1][i] == BARE;
      }
    }
  }

  // ---- Two steps and one ----

  /** What a caller can check about the merged sections before assembling again. */
  ghost predicate Reassembles(m: Sections, gs: seq<Fragment>) {
    Titled(m) && forall k :: k in m.items ==> BareComesBack(m.items[k], Brought(gs, k))
  }

  lemma VisibleThenMore(m: Sections, gs: seq<Fragment>, k: string)
    requires Good(m) && k in Visible(m).items
    ensures k in m.items
    ensures AddFragments(m, gs).items.Keys == m.items.Keys
    ensures AddFragments(Visible(m), gs).items.Keys == Visible(m).items.Keys
    ensures AddFragments(m, gs).items[k] == AddItems(m.items[k], Brought(gs, k))
    ensures AddFragments(Visible(m), gs).items[k] == AddItems(Readable(m.items[k]), Brought(gs, k))
  {
    ShownAreSections(m, m.extras);
    AddFragmentsItems(m, gs, k);
    AddFragmentsItems(Visible(m), gs, k);
  }

  lemma {:induction false} ReassemblesIsEnough(m: Sections, gs: seq<Fragment>)
    requires Good(m) && AllValid(gs) && Reassembles(m, gs)
    ensures Printed(AddFragments(m, gs)) == Printed(AddFragments(Visible(m), gs))
  {
    var s, t := AddFragments(m, gs), AddFragments(Visible(m), gs);
    AddFragmentsGood(m, gs);
    AddFragmentsItems(m, gs, "");
    AddFragmentsItems(Visible(m), gs, "");
    forall k | k in m.extras ensures s.items[k] == m.items[k] {
      AddFragmentsItems(m, gs, k);
      assert StrippedTitle(k);
      BroughtNothing(gs, k);
    }
    ShownUnchanged(m, s, m.extras);
    ShownAreSections(m, m.extras);
    forall k | k in t.items ensures t.items[k] == s.items[k] {
      VisibleThenMore(m, gs, k);
      BareExactly(m.items[k], Brought(gs, k));
    }
    SamePrintPrints(s, t);
  }

  lemma VisibleGood(m: Sections)
    requires Good(m) && Titled(m)
    ensures Good(Visible(m))
  {
    UntitledIsLost(m);
    PrintedReadsBack(m);
  }

  lemma {:induction false} ReassemblesIsNeeded(m: Sections, gs: seq<Fragment>)
    requires Good(m) && AllValid(gs) && Titled(m)
    requires Printed(AddFragments(m, gs)) == Printed(AddFragments(Visible(m), gs))
    ensures Reassembles(m, gs)
  {
    var s, t := AddFragments(m, gs), AddFragments(Visible(m), gs);
    AddFragmentsGood(m, gs);
    VisibleGood(m);
    AddFragmentsGood(Visible(m), gs);
    PrintedDetermines(s, t);
    forall k | k in m.items ensures BareComesBack(m.items[k], Brought(gs, k)) {
      AddFragmentsItems(m, gs, k);
      AddFragmentsItems(Visible(m), gs, k);
      if BARE in m.items[k] {
        AddItemsConserves(m.items[k], Brought(gs, k));
        ShownAreSections(s, HEADINGS + s.extras);
        assert k in ShownKeys(s);
        VisibleThenMore(m, gs, k);
        BareExactly(m.items[k], Brought(gs, k));
      }
    }
  }

  lemma {:induction false} UntitledNeverReassembles(m: Sections, gs: seq<Fragment>)
    requires Good(m) && AllValid(gs) && !Titled(m)
    ensures Good(ReadSections(PrintedPieces(m)))
    ensures Printed(AddFragments(m, gs)) != Printed(AddFragments(ReadSections(PrintedPieces(m)), gs))
  {
    var r := ReadSections(PrintedPieces(m));
    var s, t := AddFragments(m, gs), AddFragments(r, gs);
    UntitledIsLost(m);
    AddFragmentsGood(m, gs);
    AddFragmentsGood(r, gs);
    ShownKeysFacts(m);
    var k :| k in ShownKeys(m) && !IsTitle(k);
    assert StrippedTitle(k) && k == "###";
    AddFragmentsItems(m, gs, k);
    AddFragmentsItems(r, gs, k);
    AddItemsConserves(m.items[k], Brought(gs, k));
    ShownAreSections(m, HEADINGS + m.extras);
    ShownAreSections(s, HEADINGS + s.extras);
    assert k in ShownKeys(s);
    if Printed(s) == Printed(t) {
      PrintedDetermines(s, t);
    }
  }

  /** Assembling some fragments and then others equals assembling them all at once exactly when no
      untitled heading has items and every bare bullet comes back with the later fragments. */
  lemma {:induction false} AssembleTwiceExactly(into: Option<string>, text: string, fs: seq<Fragment>, gs: seq<Fragment>)
    requires CanAssemble(into, text, fs) && AllValid(gs) && gs != []
    ensures Assemble(into, Assemble(into, text, fs).text, gs) == Assemble(into, text, fs + gs)
            <==> Reassembles(Merged(into, text, fs), gs)
  {
    var m := Merged(into, text, fs);
    var r := ReadSections(PrintedPieces(m));
    SecondAssembly(into, text, fs, gs);
    OneAssembly(into, text, fs, gs);
    MergedGood(into, text, fs);
    UntitledIsLost(m);
    AddFragmentsGood(m, gs);
    AddFragmentsGood(r, gs);
    TextDeterminesPrinted(into, Split(text), AddFragments(r, gs), AddFragments(m, gs));
    if Titled(m) {
      PrintedReadsBack(m);
      if Reassembles(m, gs) {
        ReassemblesIsEnough(m, gs);
      } else if Printed(AddFragments(m, gs)) == Printed(AddFragments(r, gs)) {
        ReassemblesIsNeeded(m, gs);
      }
    } else {
      UntitledNeverReassembles(m, gs);
    }
  }

  /** Every printed heading has a title, and a bare bullet only ends a section and comes from a
      fragment of that section. */
  ghost predicate IsStable(m: Sections, fs: seq<Fragment>) {
    && Titled(m)
    && forall k :: k in m.items && BARE in m.items[k] ==>
         && m.items[k][|m.items[k]| - 1] == BARE
         && BARE !in m.items[k][..|m.items[k]| - 1]
         && BARE in Brought(fs, k)
  }

  lemma FirstNewIsOnlyNew(have: seq<Item>, it: Item, more: seq<Item>)
    requires it !in have && forall x :: x in more ==> x in have || x == it
    ensures FirstNew(have, more) == if it in more then Some(it) else None
  {
    if more != [] {
      assert more == [more[0]] + more[1..];
    }
  }

  lemma StableSection(s: Sections, fs: seq<Fragment>, k: string)
    requires k in s.items
    ensures var its := AddItems(s.items[k], Brought(fs, k));
            BARE in its && its[|its| - 1] == BARE && BARE !in its[..|its| - 1] ==>
              (BARE in Brought(fs, k) <==> FirstNew(its[..|its| - 1], Brought(fs, k)) == Some(BARE))
  {
    var its := AddItems(s.items[k], Brought(fs, k));
    AddItemsConserves(s.items[k], Brought(fs, k));
    if BARE in its && its[|its| - 1] == BARE && BARE !in its[..|its| - 1] {
      assert its == its[..|its| - 1] + [BARE];
      FirstNewIsOnlyNew(its[..|its| - 1], BARE, Brought(fs, k));
    }
  }

  lemma StableIsReassembles(s: Sections, fs: seq<Fragment>)
    ensures var m := AddFragments(s, fs); IsStable(m, fs) <==> Reassembles(m, fs)
  {
    var m := AddFragments(s, fs);
    AddFragmentsItems(s, fs, "");
    forall k | k in m.items
      ensures BareComesBack(m.items[k], Brought(fs, k)) <==>
                (BARE in m.items[k] ==>
                   && m.items[k][|m.items[k]| - 1] == BARE
                   && BARE !in m.items[k][..|m.items[k]| - 1]
                   && BARE in Brought(fs, k))
    {
      AddFragmentsItems(s, fs, k);
      StableSection(s, fs, k);
    }
  }

  /** Assembling the same fragments again changes nothing exactly when the result is stable. */
  lemma {:induction false} AssembleIsFixpointExactly(into: Option<string>, text: string, fs: seq<Fragment>)
    requires CanAssemble(into, text, fs)
    ensures Assemble(into, Assemble(into, text, fs).text, fs) == Assemble(into, text, fs)
            <==> IsStable(Merged(into, text, fs), fs)
  {
    AssembleTwiceExactly(into, text, fs, fs);
    OneAssembly(into, text, fs, fs);
    MergedTwice(SectionsOfText(into, text).value, fs);
    StableIsReassembles(SectionsOfText(into, text).value, fs);
  }

  /** Assembling some fragments and then others is assembling them all at once, when every bullet has
      text or a continuation and every heading a title. */
  lemma {:induction false} AssembleTwice(into: Option<string>, text: string, fs: seq<Fragment>, gs: seq<Fragment>)
    requires CanAssemble(into, text, fs) && AllValid(gs) && gs != []
    requires Titled(Merged(into, text, fs)) && NoBareBullet(Merged(into, text, fs))
    ensures Assemble(into, Assemble(into, text, fs).text, gs) == Assemble(into, text, fs + gs)
  {
    AssembleTwiceExactly(into, text, fs, gs);
  }

  /** Assembling the same fragments into the result changes nothing, under the same conditions. */
  lemma {:induction false} AssembleIsFixpoint(into: Option<string>, text: string, fs: seq<Fragment>)
    requires CanAssemble(into, text, fs)
    requires Titled(Merged(into, text, fs)) && NoBareBullet(Merged(into, text, fs))
    ensures Assemble(into, Assemble(into, text, fs).text, fs) == Assemble(into, text, fs)
  {
    AssembleIsFixpointExactly(into, text, fs);
  }

  // ---- Conservation, exactly ----

  lemma {:induction false} PrintedHolds(m: Sections)
    requires Good(m)
    ensures forall k :: k in ShownKeys(m) ==> k in m.items
    ensures Paragraphs(Printed(m) + [""], []) == Listed(m, ShownKeys(m))
    ensures forall k :: k in m.items && m.items[k] != [] ==> k in ShownKeys(m)
  {
    ShownAreListable(m);
    PrintedParagraphs(m);
    ShownKeysAre(m, HEADINGS, m.extras);
  }

  lemma {:induction false} MergingGains(was: Sections, fs: seq<Fragment>)
    ensures forall k :: k in AddFragments(was, fs).items <==> k in was.items
    ensures forall k :: k in was.items ==> GainsOnly(was, fs, AddFragments(was, fs), k)
  {
    AddFragmentsItems(was, fs, "");
    forall k | k in was.items ensures GainsOnly(was, fs, AddFragments(was, fs), k) {
      MergingGainsOnly(was, fs, k);
    }
  }

  /** What the script writes holds every item, whether or not it can be read back: the text around the
      release is the old one, the release is the merged sections' headings and items, paragraph by
      paragraph, and every merged section is the old one with its fragments' new items. */
  lemma {:induction false} AssembledTextHolds(into: Option<string>, text: string, fs: seq<Fragment>)
    requires CanAssemble(into, text, fs)
    ensures var was, m := SectionsOfText(into, text).value, Merged(into, text, fs);
            var ls := Split(text);
            var h := FindTarget(into, ls, 0);
            && h < |ls|
            && Assemble(into, text, fs).text == Unlines(Spliced(ls, h, FindRelease(ls, h + 1), Printed(m)))
            && (forall k :: k in ShownKeys(m) ==> k in m.items)
            && Paragraphs(Printed(m) + [""], []) == Listed(m, ShownKeys(m))
            && (forall k :: k in m.items <==> k in was.items)
            && (forall k :: k in was.items ==> GainsOnly(was, fs, m, k))
            && forall k :: k in m.items && m.items[k] != [] ==> k in ShownKeys(m)
  {
    MergedGood(into, text, fs);
    PrintedHolds(Merged(into, text, fs));
    MergingGains(SectionsOfText(into, text).value, fs);
  }

  lemma {:induction false} UntitledIsNotConserved(was: Sections, fs: seq<Fragment>)
    requires Good(was) && Good(AddFragments(was, fs)) && !Titled(AddFragments(was, fs))
    ensures !Conserves(was, fs, ReadSections(PrintedPieces(AddFragments(was, fs))))
  {
    var m := AddFragments(was, fs);
    var k :| k in ShownKeys(m) && !IsTitle(k);
    ShownKeysFacts(m);
    assert StrippedTitle(k) && k == "###";
    HeadingsAreTitles();
    MergingKeepsExtras(was, fs);
    ShownKeysAre(m, HEADINGS, m.extras);
    ShownAreSections(m, m.extras);
    assert k in Shown(was, was.extras);
    UntitledIsNoExtra(m);
  }

  lemma {:induction false} BareIsNotConserved(was: Sections, fs: seq<Fragment>, k: string)
    requires Good(was) && Good(AddFragments(was, fs)) && Titled(AddFragments(was, fs))
    requires k in was.items && k in AddFragments(was, fs).items && BARE in AddFragments(was, fs).items[k]
    ensures !Conserves(was, fs, ReadSections(PrintedPieces(AddFragments(was, fs))))
  {
    var m := AddFragments(was, fs);
    var read := ReadSections(PrintedPieces(m));
    PrintedReadsBack(m);
    AddFragmentsItems(was, fs, k);
    ShownKeysAre(m, HEADINGS, m.extras);
    ShownAreSections(m, m.extras);
    assert k in read.items;
    ReadableIsAll(m.items[k]);
    MergingGainsOnly(was, fs, k);
    assert BARE in was.items[k] || BARE in Brought(fs, k);
  }

  /** Read back, the result has every section there was with its items in order and multiplicity, each
      new fragment item once under its heading, and nothing else, exactly when every printed heading has
      a title and every bullet has text or a continuation. */
  lemma {:induction false} AssemblyConservesExactly(into: Option<string>, text: string, fs: seq<Fragment>)
    requires CanAssemble(into, text, fs)
    ensures SectionsOfText(into, Assemble(into, text, fs).text).Some?
    ensures Conserves(SectionsOfText(into, text).value, fs, SectionsOfText(into, Assemble(into, text, fs).text).value)
            <==> Titled(Merged(into, text, fs)) && NoBareBullet(Merged(into, text, fs))
  {
    var was, m := SectionsOfText(into, text).value, Merged(into, text, fs);
    SecondAssembly(into, text, fs, fs);
    MergedGood(into, text, fs);
    SectionsInGood(into, Split(text));
    AddFragmentsItems(was, fs, "");
    if !Titled(m) {
      UntitledIsNotConserved(was, fs);
    } else if !NoBareBullet(m) {
      var k :| k in m.items && BARE in m.items[k];
      BareIsNotConserved(was, fs, k);
    } else {
      AssemblyConservesItems(into, text, fs);
    }
  }

  // ---- An input that is not stable ----

  lemma ParseBulletFirst(l: string, rest: seq<string>)
    requires IsBullet(l)
    ensures ParseFrom([l] + rest, []) == ParseFrom(rest, [l])
    ensures ParseFrom([""] + rest, [l]) == [[Rstrip(l)]] + ParseFrom(rest, [])
    ensures ParseFrom([], [l]) == [[Rstrip(l)]]
  {
    assert ([l] + rest)[1..] == rest && ([""] + rest)[1..] == rest;
    assert TrimLast([l]) == [Rstrip(l)];
  }

  lemma BareThenItem()
    ensures ItemsOf(["- ", "", "- x"]) == [BARE, ["- x"]]
  {
    assert Rstrip("- ") == Rstrip("-") == "-";
    assert Rstrip("- x") == "- x";
    ParseBulletFirst("- x", []);
    ParseBulletFirst("- ", ["- x"]);
    ParseBulletFirst("- ", ["", "- x"]);
    assert ["- x"] + [] == ["- x"] && [""] + ["- x"] == ["", "- x"];
    assert ["- "] + ["", "- x"] == ["- ", "", "- x"];
  }

  lemma {:induction false} GroupedUnder(k: string, body: seq<string>)
    requires k in HEADINGS && forall i :: 0 <= i < |body| ==> !IsTitle(body[i])
    ensures Grouped(["", k] + body, NO_LINES) == NO_LINES.(current := Some(k), lines := NO_LINES.lines[k := body])
  {
    HeadingsAreTitles();
    var pieces := ["", k] + body;
    assert pieces[1..] == [k] + body && ([k] + body)[1..] == body;
    GroupedBody(body, NO_LINES.(current := Some(k)));
    assert [] + body == body;
  }

  lemma ReadBareThenItem(k: string)
    requires k in HEADINGS
    ensures ReadSections(["", k, "- ", "", "- x"]).items.Keys == NO_LINES.lines.Keys
    ensures ReadSections(["", k, "- ", "", "- x"]).items[k] == [BARE, ["- x"]]
  {
    var body := ["- ", "", "- x"];
    GroupedUnder(k, body);
    assert ["", k] + body == ["", k, "- ", "", "- x"];
    BareThenItem();
  }

  lemma BareIsUnstable(s: Sections, k: string, fs: seq<Fragment>)
    requires k in s.items && s.items[k] == [BARE, ["- x"]]
    ensures !IsStable(AddFragments(s, fs), fs)
  {
    AddFragmentsItems(s, fs, k);
    AddItemsConserves(s.items[k], Brought(fs, k));
    var its := AddFragments(s, fs).items[k];
    assert its[0] == BARE && |its| >= 2;
    assert its[..|its| - 1][0] == BARE;
  }

  lemma {:induction false} BareBulletLines(k: string)
    requires k in HEADINGS
    ensures var ls := ["## [Unreleased]", k, "- ", "", "- x"];
            AllOneLine(ls) && FindTarget(None, ls, 0) == 0 && FindRelease(ls, 1) == 5
  {
    var ls := ["## [Unreleased]", k, "- ", "", "- x"];
    HeadingsAreTitles();
    FindTargetIs(None, ls, 0, 0);
    FindReleaseIs(ls, 1, 5);
  }

  lemma {:induction false} BareBulletText(k: string)
    requires k in HEADINGS
    ensures var read := SectionsOfText(None, Unlines(["## [Unreleased]", k, "- ", "", "- x"]));
            read.Some? && k in read.value.items && read.value.items[k] == [BARE, ["- x"]]
  {
    var ls := ["## [Unreleased]", k, "- ", "", "- x"];
    BareBulletLines(k);
    SplitUnlines(ls);
    SectionsAt(None, ls, 0, 5, Sections([], map[]));
    assert RegionPieces(ls, 0, 5) == ["", k, "- ", "", "- x"];
    ReadBareThenItem(k);
  }

  /** A changelog with a bullet that has no text, followed by another: no assembly of it is stable,
      whatever the fragments. */
  lemma {:induction false} BareBulletBreaksFixpoint(k: string, fs: seq<Fragment>)
    requires k in HEADINGS && AllValid(fs) && fs != []
    ensures var text := Unlines(["## [Unreleased]", k, "- ", "", "- x"]);
            && CanAssemble(None, text, fs)
            && Assemble(None, Assemble(None, text, fs).text, fs) != Assemble(None, text, fs)
  {
    BareBulletText(k);
    var text := Unlines(["## [Unreleased]", k, "- ", "", "- x"]);
    BareIsUnstable(SectionsOfText(None, text).value, k, fs);
    AssembleIsFixpointExactly(None, text, fs);
  }
}
