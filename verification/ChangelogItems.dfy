/** List items of a changelog section (scripts/changelog-assemble.py, `items`).

    An item is kept as its lines; the script keeps them joined with line breaks. `ItemsOf` is the
    parser on lines, `Spread` the printer that separates items by a blank line. */
module ChangelogItems {
  import opened TextLines

  type Item = seq<string>

  const BULLET := "- "

  predicate IsBullet(l: string) {
    BULLET <= l
  }

  /** A line that continues an item. */
  predicate Continuation(l: string) {
    !Blank(l) && !IsBullet(l)
  }

  /** An item being collected: a bullet and its continuation lines. */
  predicate Open(cur: seq<string>) {
    cur != [] && IsBullet(cur[0]) && forall i :: 1 <= i < |cur| ==> Continuation(cur[i])
  }

  /** Joining an item's lines and stripping the end strips its last line. */
  function TrimLast(cur: seq<string>): Item
    requires cur != []
  {
    cur[..|cur| - 1] + [Rstrip(cur[|cur| - 1])]
  }

  function Finish(cur: seq<string>): seq<Item> {
    if cur == [] then [] else [TrimLast(cur)]
  }

  function ParseFrom(lines: seq<string>, cur: seq<string>): seq<Item> {
    if lines == [] then Finish(cur)
    else if IsBullet(lines[0]) then Finish(cur) + ParseFrom(lines[1..], [lines[0]])
    else if Blank(lines[0]) then Finish(cur) + ParseFrom(lines[1..], [])
    else if cur != [] then ParseFrom(lines[1..], cur + [lines[0]])
    else ParseFrom(lines[1..], [])
  }

  function ItemsOf(lines: seq<string>): seq<Item> {
    ParseFrom(lines, [])
  }

  // ---- What an item looks like ----

  /** The one item the printer cannot give back to the parser: a bullet stripped of its space. */
  const BARE: Item := ["-"]

  predicate Shaped(item: Item) {
    && item != []
    && (IsBullet(item[0]) || item == BARE)
    && (forall i :: 1 <= i < |item| ==> Continuation(item[i]))
    && Rstrip(item[|item| - 1]) == item[|item| - 1]
  }

  predicate AllShaped(its: seq<Item>) {
    forall i :: 0 <= i < |its| ==> Shaped(its[i])
  }

  lemma BulletIsNotBlank(l: string)
    requires IsBullet(l) || l == "-"
    ensures !Blank(l)
  {
    assert l[0] == '-';
  }

  lemma RstripBullet(l: string)
    requires IsBullet(l)
    ensures IsBullet(Rstrip(l)) || Rstrip(l) == "-"
  {
    if IsSpace(l[|l| - 1]) {
      var m := l[..|l| - 1];
      if |l| == 2 {
        assert m == "-";
      } else {
        RstripBullet(m);
      }
    }
  }

  lemma RstripIdempotent(l: string)
    ensures Rstrip(Rstrip(l)) == Rstrip(l)
  {
  }

  lemma RstripContinuation(l: string)
    requires Continuation(l)
    ensures Continuation(Rstrip(l))
  {
    BlankRstrip(l);
    RstripIdempotent(l);
    BlankRstrip(Rstrip(l));
  }

  lemma TrimLastShaped(cur: seq<string>)
    requires Open(cur)
    ensures Shaped(TrimLast(cur))
  {
    var last := cur[|cur| - 1];
    RstripIdempotent(last);
    if |cur| == 1 {
      RstripBullet(last);
    } else {
      RstripContinuation(last);
    }
  }

  lemma ParsedAreShaped(lines: seq<string>, cur: seq<string>)
    requires cur == [] || Open(cur)
    ensures AllShaped(ParseFrom(lines, cur))
  {
    if cur != [] {
      TrimLastShaped(cur);
    }
    if lines != [] {
      if IsBullet(lines[0]) {
        ParsedAreShaped(lines[1..], [lines[0]]);
      } else if Blank(lines[0]) {
        ParsedAreShaped(lines[1..], []);
      } else if cur != [] {
        ParsedAreShaped(lines[1..], cur + [lines[0]]);
      } else {
        ParsedAreShaped(lines[1..], []);
      }
    }
  }

  // ---- Printing and reading back ----

  /** Items separated by one blank line. */
  function Spread(its: seq<Item>): seq<string> {
    if its == [] then [] else if |its| == 1 then its[0] else its[0] + [""] + Spread(its[1..])
  }

  /** What of a list of items survives printing. */
  function Readable(its: seq<Item>): seq<Item> {
    if its == [] then [] else (if its[0] == BARE then [] else [its[0]]) + Readable(its[1..])
  }

  lemma ParseContinuations(ls: seq<string>, rest: seq<string>, cur: seq<string>)
    requires cur != [] && forall i :: 0 <= i < |ls| ==> Continuation(ls[i])
    ensures ParseFrom(ls + rest, cur) == ParseFrom(rest, cur + ls)
  {
    if ls == [] {
      assert ls + rest == rest && cur + ls == cur;
    } else {
      ParseContinuations(ls[1..], rest, cur + [ls[0]]);
      assert (ls + rest)[1..] == ls[1..] + rest;
      assert cur + [ls[0]] + ls[1..] == cur + ls;
    }
  }

  lemma ParseOneItem(item: Item, rest: seq<string>)
    requires Shaped(item)
    ensures ParseFrom(item + rest, []) == ParseFrom(rest, if item == BARE then [] else item)
  {
    assert (item + rest)[0] == item[0] && (item + rest)[1..] == item[1..] + rest;
    BulletIsNotBlank(item[0]);
    if item == BARE {
      assert item[1..] + rest == rest;
    } else {
      ParseContinuations(item[1..], rest, [item[0]]);
      assert [item[0]] + item[1..] == item;
    }
  }

  lemma ParseItemThenBlank(item: Item, after: seq<string>)
    requires Shaped(item)
    ensures ParseFrom(item + ([""] + after), []) == (if item == BARE then [] else [item]) + ParseFrom(after, [])
  {
    ParseOneItem(item, [""] + after);
    assert ([""] + after)[0] == "" && ([""] + after)[1..] == after;
    assert TrimLast(item) == item;
  }

  /** Reading back a printed list of items gives the list, less its bare bullets. */
  lemma {:induction false} ParseSpread(its: seq<Item>, rest: seq<string>)
    requires AllShaped(its)
    ensures ParseFrom(Spread(its) + [""] + rest, []) == Readable(its) + ParseFrom(rest, [])
  {
    if its == [] {
      assert Spread(its) + [""] + rest == [""] + rest;
      assert ([""] + rest)[1..] == rest;
      assert Readable(its) == [];
    } else {
      var item := its[0];
      var after := if |its| == 1 then rest else Spread(its[1..]) + [""] + rest;
      assert Spread(its) + [""] + rest == item + ([""] + after);
      ParseItemThenBlank(item, after);
      if |its| == 1 {
        assert Readable(its[1..]) == [];
      } else {
        ParseSpread(its[1..], rest);
      }
    }
  }

  lemma ParseLeadingBlank(rest: seq<string>)
    ensures ParseFrom([""] + rest, []) == ParseFrom(rest, [])
  {
    assert ([""] + rest)[1..] == rest;
  }

  lemma ParseTrailingBlank(lines: seq<string>, cur: seq<string>)
    ensures ParseFrom(lines + [""], cur) == ParseFrom(lines, cur)
  {
    if lines == [] {
      assert lines + [""] == [""] && [""][1..] == [];
    } else {
      assert (lines + [""])[1..] == lines[1..] + [""];
      if IsBullet(lines[0]) {
        ParseTrailingBlank(lines[1..], [lines[0]]);
      } else if Blank(lines[0]) {
        ParseTrailingBlank(lines[1..], []);
      } else if cur != [] {
        ParseTrailingBlank(lines[1..], cur + [lines[0]]);
      } else {
        ParseTrailingBlank(lines[1..], []);
      }
    }
  }

  lemma ReadableIsAll(its: seq<Item>)
    ensures Readable(its) == its <==> BARE !in its
    ensures BARE !in Readable(its)
    ensures |Readable(its)| <= |its|
  {
    if its != [] {
      ReadableIsAll(its[1..]);
      assert its == [its[0]] + its[1..];
      if its[0] == BARE {
        assert |Readable(its)| < |its|;
      }
    }
  }

  /** The parser undoes the printer exactly when no item is a bare bullet. */
  lemma {:induction false} PrintedItemsReadBack(its: seq<Item>)
    requires AllShaped(its)
    ensures ItemsOf(Spread(its)) == Readable(its)
    ensures ItemsOf(Spread(its)) == its <==> BARE !in its
  {
    ParseSpread(its, []);
    assert Spread(its) + [""] + [] == Spread(its) + [""];
    ParseTrailingBlank(Spread(its), []);
    assert ParseFrom([], []) == [];
    assert Readable(its) + [] == Readable(its);
    ReadableIsAll(its);
  }

  /** Parsing, printing and parsing again: every block is stable once its bullets have text. */
  lemma {:induction false} ItemsRoundTrip(block: seq<string>)
    ensures ItemsOf(Spread(ItemsOf(block))) == ItemsOf(block) <==> BARE !in ItemsOf(block)
  {
    ParsedAreShaped(block, []);
    PrintedItemsReadBack(ItemsOf(block));
  }

  // ---- Conservation of lines ----

  function Flatten(its: seq<Item>): seq<string> {
    if its == [] then [] else its[0] + Flatten(its[1..])
  }

  function Trimmed(ls: seq<string>): seq<string> {
    seq(|ls|, i requires 0 <= i < |ls| => Rstrip(ls[i]))
  }

  function NonBlank(ls: seq<string>): seq<string> {
    if ls == [] then [] else (if Blank(ls[0]) then [] else [ls[0]]) + NonBlank(ls[1..])
  }

  /** Some line that is neither blank nor a bullet comes when no item is open: first of all, or
      right after a blank line. */
  predicate HasOrphan(lines: seq<string>, open: bool) {
    lines != [] &&
    if IsBullet(lines[0]) then HasOrphan(lines[1..], true)
    else if Blank(lines[0]) then HasOrphan(lines[1..], false)
    else !open || HasOrphan(lines[1..], open)
  }

  lemma TrimmedAppend(a: seq<string>, b: seq<string>)
    ensures Trimmed(a + b) == Trimmed(a) + Trimmed(b)
  {
  }

  lemma TrimmedTrimLast(cur: seq<string>)
    requires cur != []
    ensures Trimmed(TrimLast(cur)) == Trimmed(cur)
  {
    RstripIdempotent(cur[|cur| - 1]);
  }

  lemma FlattenAppend(a: seq<Item>, b: seq<Item>)
    ensures Flatten(a + b) == Flatten(a) + Flatten(b)
  {
    if a == [] {
      assert a + b == b;
    } else {
      FlattenAppend(a[1..], b);
      assert (a + b)[1..] == a[1..] + b;
    }
  }

  lemma FlattenFinish(cur: seq<string>)
    ensures Trimmed(Flatten(Finish(cur))) == Trimmed(cur)
  {
    if cur != [] {
      assert Flatten([TrimLast(cur)]) == TrimLast(cur) + Flatten([]);
      assert TrimLast(cur) + [] == TrimLast(cur);
      TrimmedTrimLast(cur);
    }
  }

  /** The items hold, up to trailing white space, every non-blank line exactly when no line is
      orphaned, and otherwise strictly fewer. */
  lemma {:induction false} ParseConserves(lines: seq<string>, cur: seq<string>)
    ensures !HasOrphan(lines, cur != []) ==>
              Trimmed(Flatten(ParseFrom(lines, cur))) == Trimmed(cur) + Trimmed(NonBlank(lines))
    ensures HasOrphan(lines, cur != []) ==>
              |Flatten(ParseFrom(lines, cur))| < |cur| + |NonBlank(lines)|
    ensures |Flatten(ParseFrom(lines, cur))| <= |cur| + |NonBlank(lines)|
  {
    FlattenFinish(cur);
    assert |Flatten(Finish(cur))| == |Trimmed(cur)|;
    if lines == [] {
      assert Trimmed(cur) + Trimmed([]) == Trimmed(cur);
    } else {
      var l, rest := lines[0], lines[1..];
      if IsBullet(l) {
        BulletIsNotBlank(l);
        ParseConserves(rest, [l]);
        FlattenAppend(Finish(cur), ParseFrom(rest, [l]));
        TrimmedAppend(Flatten(Finish(cur)), Flatten(ParseFrom(rest, [l])));
        TrimmedAppend([l], NonBlank(rest));
      } else if Blank(l) {
        ParseConserves(rest, []);
        FlattenAppend(Finish(cur), ParseFrom(rest, []));
        TrimmedAppend(Flatten(Finish(cur)), Flatten(ParseFrom(rest, [])));
        assert Trimmed([]) + Trimmed(NonBlank(rest)) == Trimmed(NonBlank(rest));
        assert NonBlank(lines) == NonBlank(rest);
      } else if cur != [] {
        ParseConserves(rest, cur + [l]);
        TrimmedAppend(cur, [l]);
        TrimmedAppend([l], NonBlank(rest));
        assert Trimmed(cur) + Trimmed([l]) + Trimmed(NonBlank(rest)) == Trimmed(cur) + Trimmed(NonBlank(lines));
      } else {
        ParseConserves(rest, []);
      }
    }
  }

  /** No line of a block is lost exactly when none is orphaned. */
  lemma {:induction false} ItemsConserveLines(lines: seq<string>)
    ensures Trimmed(Flatten(ItemsOf(lines))) == Trimmed(NonBlank(lines)) <==> !HasOrphan(lines, false)
  {
    ParseConserves(lines, []);
    assert Trimmed([]) + Trimmed(NonBlank(lines)) == Trimmed(NonBlank(lines));
    assert |Trimmed(Flatten(ItemsOf(lines)))| == |Flatten(ItemsOf(lines))|;
  }

  ghost predicate OrphanAt(lines: seq<string>, open: bool, i: nat) {
    i < |lines| && Continuation(lines[i]) && (if i == 0 then !open else Blank(lines[i - 1]) && !IsBullet(lines[i - 1]))
  }

  lemma {:induction false} OrphanWitness(lines: seq<string>, open: bool)
    ensures HasOrphan(lines, open) <==> exists i: nat :: OrphanAt(lines, open, i)
  {
    if lines != [] {
      var rest := lines[1..];
      var next := IsBullet(lines[0]) || (!Blank(lines[0]) && open);
      OrphanWitness(rest, next);
      if i: nat :| OrphanAt(rest, next, i) && (Blank(lines[0]) || IsBullet(lines[0]) || open) {
        assert OrphanAt(lines, open, i + 1);
      }
      if Continuation(lines[0]) && !open {
        assert OrphanAt(lines, open, 0);
      }
      if i: nat :| OrphanAt(lines, open, i) {
        if i > 0 {
          assert OrphanAt(rest, next, i - 1);
        }
      }
    }
  }

  /** In a block that starts with a bullet, a line is orphaned exactly when some line that is
      neither blank nor a bullet directly follows a blank one. */
  lemma {:induction false} OrphanFollowsBlank(lines: seq<string>, open: bool)
    requires open || (lines != [] && IsBullet(lines[0]))
    ensures HasOrphan(lines, open) <==>
            exists i :: 1 <= i < |lines| && Blank(lines[i - 1]) && !IsBullet(lines[i - 1]) && Continuation(lines[i])
  {
    OrphanWitness(lines, open);
    if i: nat :| OrphanAt(lines, open, i) {
      assert i >= 1;
    }
    if i :| 1 <= i < |lines| && Blank(lines[i - 1]) && !IsBullet(lines[i - 1]) && Continuation(lines[i]) {
      assert OrphanAt(lines, open, i);
    }
  }

  // ---- The script's parser ----

  function ItemText(item: Item): string {
    Unlines(item)
  }

  function ItemTexts(its: seq<Item>): seq<string> {
    seq(|its|, i requires 0 <= i < |its| => ItemText(its[i]))
  }

  lemma ItemTextsAppend(a: seq<Item>, b: seq<Item>)
    ensures ItemTexts(a + b) == ItemTexts(a) + ItemTexts(b)
  {
  }

  /** Stripping the end of the joined lines strips the last line. */
  lemma FinishedText(cur: seq<string>)
    requires Open(cur)
    ensures Rstrip(Unlines(cur)) == ItemText(TrimLast(cur))
  {
    var k := |cur| - 1;
    BulletIsNotBlank(cur[0]);
    if k == 0 {
      assert cur == [cur[0]];
    } else {
      assert cur == cur[..k] + [cur[k]];
      JoinSnoc(cur[..k], cur[k], "\n");
      JoinSnoc(cur[..k], Rstrip(cur[k]), "\n");
      RstripAppend(Unlines(cur[..k]) + "\n", cur[k]);
    }
  }

  /** The item a line completes, if any. */
  function TextsAt(line: string, cur: seq<string>): seq<string> {
    if cur != [] && (IsBullet(line) || Blank(line)) then [Rstrip(Unlines(cur))] else []
  }

  /** The item being read after a line. */
  function CurAfter(line: string, cur: seq<string>): seq<string> {
    if IsBullet(line) then [line] else if Blank(line) || cur == [] then [] else cur + [line]
  }

  lemma BlankLstrip(l: string)
    ensures Blank(l) <==> Blank(Lstrip(l))
  {
    if l != "" && IsSpace(l[0]) {
      BlankLstrip(l[1..]);
    }
  }

  lemma StripBlank(l: string)
    ensures Strip(l) == "" <==> Blank(l)
  {
    BlankLstrip(l);
    BlankRstrip(Lstrip(l));
  }

  lemma TextsStep(line: string, rest: seq<string>, cur: seq<string>)
    requires cur == [] || Open(cur)
    ensures ItemTexts(ParseFrom([line] + rest, cur)) == TextsAt(line, cur) + ItemTexts(ParseFrom(rest, CurAfter(line, cur)))
    ensures CurAfter(line, cur) == [] || Open(CurAfter(line, cur))
    ensures Strip(line) == "" <==> Blank(line)
  {
    assert ([line] + rest)[1..] == rest;
    StripBlank(line);
    var after := ParseFrom(rest, CurAfter(line, cur));
    if cur != [] && (IsBullet(line) || Blank(line)) {
      FinishedText(cur);
    }
    ItemTextsAppend(Finish(cur), after);
  }

  /** One line of the scan: a bullet opens an item, a blank line closes one, any other line continues
      the open one. */
  method TakeLine(line: string, out: seq<string>, cur: seq<string>) returns (more: seq<string>, open: seq<string>)
    ensures more == out + TextsAt(line, cur) && open == CurAfter(line, cur)
  {
    more, open := out, cur;
    StripBlank(line);
    if IsBullet(line) {
      if cur != [] {
        more := more + [Rstrip(Unlines(cur))];
      }
      open := [line];
    } else if Strip(line) == "" {
      if cur != [] {
        more := more + [Rstrip(Unlines(cur))];
        open := [];
      }
    } else {
      if cur != [] {
        open := cur + [line];
      }
    }
  }

  /** `items(block)`: the list items of a block of text, continuation lines attached. */
  method Items(block: string) returns (out: seq<string>)
    ensures out == ItemTexts(ItemsOf(Split(block)))
  {
    var lines := Split(block);
    var cur: seq<string> := [];
    out := [];
    ghost var todo := ItemTexts(ParseFrom(lines, cur));
    assert lines[0..] == lines;
    for k := 0 to |lines|
      invariant cur == [] || Open(cur)
      invariant todo == ItemTexts(ParseFrom(lines[k..], cur))
      invariant ItemTexts(ItemsOf(lines)) == out + todo
    {
      var line := lines[k];
      assert lines[k..] == [line] + lines[k + 1..];
      TextsStep(line, lines[k + 1..], cur);
      todo := ItemTexts(ParseFrom(lines[k + 1..], CurAfter(line, cur)));
      Regroup(out, TextsAt(line, cur), todo);
      out, cur := TakeLine(line, out, cur);
    }
    if cur != [] {
      FinishedText(cur);
      out := out + [Rstrip(Unlines(cur))];
    }
  }
}
