/** Rewriting the version of dependency snippets (scripts/bump-version.py) and checking it
    (scripts/check-doc-versions.py): what the checker accepts, the bump keeps acceptable. */
module VersionBump {
  import opened TextLines
  import opened Wrappers
  import opened VersionSnippets
  import opened DocVersions

  // ---- Admitted versions ----

  predicate IsSuffixChar(c: char) {
    'a' <= c <= 'z' || 'A' <= c <= 'Z' || '0' <= c <= '9' || c == '.' || c == '-'
  }

  predicate IsVersionChar(c: char) {
    IsSuffixChar(c) || IsDigit(c)
  }

  /** Three numbers and an optional pre-release suffix. */
  predicate Admitted(v: string) {
    var r := AfterVersion(v);
    r.Some? && (r.value == "" ||
                (|r.value| > 1 && r.value[0] == '-' && forall i :: 0 <= i < |r.value| ==> IsSuffixChar(r.value[i])))
  }

  lemma VersionCharIsNoSpace(c: char)
    requires IsVersionChar(c)
    ensures !IsSpace(c)
  {
    if IsDigit(c) {
      DigitIsNoSpace(c);
    }
  }

  lemma DottedParts(s: string, a: string, x: string, b: string, y: string, c: string, r: string)
    requires s == a + x && "." <= x && x[1..] == b + y && "." <= y && y[1..] == c + r
    ensures s == a + "." + b + "." + c + r
  {
    assert x == "." + (b + y) && y == "." + (c + r);
  }

  lemma AfterVersionRun(s: string) returns (v: string)
    requires AfterVersion(s).Some?
    ensures v != "" && s == v + AfterVersion(s).value
    ensures forall i :: 0 <= i < |v| ==> IsVersionChar(v[i])
  {
    var a := SkipRun(Digit, s);
    var x := Skip(Digit, s);
    var b := SkipRun(Digit, x[1..]);
    var y := Skip(Digit, x[1..]);
    var c := SkipRun(Digit, y[1..]);
    v := a + "." + b + "." + c;
    DottedParts(s, a, x, b, y, c, AfterVersion(s).value);
    DottedChars(v, a, b, c);
  }

  /** No admitted version holds a quotation mark or ends in the head of a snippet. */
  lemma {:induction false} AdmittedIsNoHead(v: string)
    requires Admitted(v)
    ensures v != "" && Unquoted(v) && !EndsInSomeHead(true, v)
    ensures forall i :: 0 <= i < |v| ==> IsVersionChar(v[i])
  {
    var w := AfterVersionRun(v);
    var r := AfterVersion(v).value;
    forall i | 0 <= i < |v| ensures IsVersionChar(v[i]) {
      assert v[i] == if i < |w| then w[i] else r[i - |w|];
    }
    assert IsVersionChar(v[|v| - 1]);
    VersionCharIsNoSpace(v[|v| - 1]);
    if p: Form :| EndsInHead(p, true, v) {
      EndsInHeadLast(p, true, v);
    }
  }

  // ---- The rewrite, character by character ----

  /** The current version at the start of a text, with its closing quotation mark: what follows. */
  function AfterQuoted(s: string, cur: string): Option<string> {
    Literal(cur + QUOTE, s)
  }

  /** A snippet of the current version starts here: what follows it. */
  function AfterSnippet(p: Form, edge: bool, s: string, cur: string): Option<string> {
    if edge && AfterHead(p, s).Some? then AfterQuoted(AfterHead(p, s).value, cur) else None
  }

  /** The part of `s` before `rest`, with `newer` for the `cur` that ends it. */
  function Renamed(s: string, rest: string, cur: string, newer: string): string
    requires |rest| + |cur| < |s|
  {
    s[..|s| - |rest| - |cur| - 1] + newer + QUOTE
  }

  /** `re.sub`: from left to right, each snippet of `cur` becomes one of `new`. */
  function Substituted(p: Form, edge: bool, s: string, cur: string, newer: string): string
    decreases |s|
  {
    if s == "" then "" else
      var t := AfterSnippet(p, edge, s, cur);
      if t.Some? then
        AfterHeadIsShorter(p, s);
        Renamed(s, t.value, cur, newer) + Substituted(p, true, t.value, cur, newer)
      else [s[0]] + Substituted(p, !IsWord(s[0]), s[1..], cur, newer)
  }

  method Substitute(p: Form, text: string, cur: string, newer: string) returns (out: string)
    ensures out == Substituted(p, true, text, cur, newer)
  {
    out := "";
    var rest, edge := text, true;
    while rest != ""
      invariant out + Substituted(p, edge, rest, cur, newer) == Substituted(p, true, text, cur, newer)
      decreases |rest|
    {
      var t := AfterSnippet(p, edge, rest, cur);
      if t.Some? {
        AfterHeadIsShorter(p, rest);
        Regroup(out, Renamed(rest, t.value, cur, newer), Substituted(p, true, t.value, cur, newer));
        out := out + Renamed(rest, t.value, cur, newer);
        rest, edge := t.value, true;
      } else {
        out := out + [rest[0]];
        rest, edge := rest[1..], !IsWord(rest[0]);
      }
    }
  }

  // ---- The rewrite on segments ----

  /** The segments after the rewrite: a current version between a head and a quotation mark is
      replaced, and is no head itself. */
  function Rewritten(p: Form, ss: seq<string>, cur: string, newer: string): (r: seq<string>)
    ensures |r| == |ss|
  {
    if |ss| < 3 then ss
    else if EndsInHead(p, true, ss[0]) && ss[1] == cur then [ss[0], newer] + Rewritten(p, ss[2..], cur, newer)
    else [ss[0]] + Rewritten(p, ss[1..], cur, newer)
  }

  function Bumped(ss: seq<string>, cur: string, newer: string): seq<string> {
    Rewritten(Table, Rewritten(Plain, ss, cur, newer), cur, newer)
  }

  lemma {:induction false} RewrittenUnquoted(p: Form, ss: seq<string>, cur: string, newer: string)
    requires Unquoted(newer) && forall i :: 0 <= i < |ss| ==> Unquoted(ss[i])
    ensures forall i :: 0 <= i < |ss| ==> Unquoted(Rewritten(p, ss, cur, newer)[i])
  {
    if |ss| >= 3 {
      RewrittenUnquoted(p, ss[1..], cur, newer);
      RewrittenUnquoted(p, ss[2..], cur, newer);
    }
  }

  lemma {:induction false} SubstitutedUnquoted(p: Form, edge: bool, s: string, cur: string, newer: string)
    requires Unquoted(s) && Unquoted(cur)
    ensures Substituted(p, edge, s, cur, newer) == s
    decreases |s|
  {
    if s != "" {
      HeadUnquoted(p, s);
      SubstitutedUnquoted(p, !IsWord(s[0]), s[1..], cur, newer);
      assert [s[0]] + s[1..] == s;
    }
  }

  lemma SnippetSegment(p: Form, edge: bool, h: string, b: string, cur: string)
    requires Unquoted(h)
    ensures AfterSnippet(p, edge, h + QUOTE + b, cur) == if edge && IsHead(p, h) then AfterQuoted(b, cur) else None
  {
    HeadSegment(p, h, b);
  }

  lemma RenamedSegment(h: string, b: string, rest: string, cur: string, newer: string)
    requires AfterQuoted(b, cur) == Some(rest)
    ensures |rest| + |cur| < |h + QUOTE + b|
    ensures Renamed(h + QUOTE + b, rest, cur, newer) == h + QUOTE + (newer + QUOTE)
  {
    assert b == cur + QUOTE + rest;
    var s := h + QUOTE + b;
    assert s[..|s| - |rest| - |cur| - 1] == h + QUOTE;
  }

  /** The text after the first quotation mark, rewritten, when a head ends there. */
  function AfterFirst(p: Form, b: string, cur: string, newer: string): string {
    if AfterQuoted(b, cur).Some?
    then newer + QUOTE + Substituted(p, true, AfterQuoted(b, cur).value, cur, newer)
    else Substituted(p, true, b, cur, newer)
  }

  lemma RegroupFirst(h: string, x: string)
    requires h != ""
    ensures [h[0]] + (h[1..] + x) == h + x
  {
  }

  lemma SubstitutedHit(p: Form, h: string, b: string, cur: string, newer: string)
    requires Unquoted(h) && IsHead(p, h) && AfterQuoted(b, cur).Some?
    ensures Substituted(p, true, h + QUOTE + b, cur, newer) == h + QUOTE + AfterFirst(p, b, cur, newer)
  {
    SnippetSegment(p, true, h, b, cur);
    var rest := AfterQuoted(b, cur).value;
    RenamedSegment(h, b, rest, cur, newer);
    Regroup(h + QUOTE, newer + QUOTE, Substituted(p, true, rest, cur, newer));
    var s := h + QUOTE + b;
    assert Substituted(p, true, s, cur, newer) == Renamed(s, rest, cur, newer) + Substituted(p, true, rest, cur, newer);
  }

  lemma SubstitutedMiss(p: Form, edge: bool, h: string, b: string, cur: string, newer: string)
    requires Unquoted(h) && !(edge && IsHead(p, h) && AfterQuoted(b, cur).Some?)
    ensures Substituted(p, edge, h + QUOTE + b, cur, newer) ==
            if h == "" then QUOTE + Substituted(p, true, b, cur, newer)
            else [h[0]] + Substituted(p, !IsWord(h[0]), h[1..] + QUOTE + b, cur, newer)
  {
    var s := h + QUOTE + b;
    SnippetSegment(p, edge, h, b, cur);
    if h == "" {
      assert s[0] == '"' && s[1..] == b;
    } else {
      assert s[0] == h[0] && s[1..] == h[1..] + QUOTE + b;
    }
  }

  /** The rewrite up to the first quotation mark of a text. */
  lemma {:induction false} SubstitutedSegment(
      p: Form, edge: bool, h: string, b: string, cur: string, newer: string)
    requires Unquoted(h) && Unquoted(cur)
    ensures Substituted(p, edge, h + QUOTE + b, cur, newer) ==
            h + QUOTE + if EndsInHead(p, edge, h) then AfterFirst(p, b, cur, newer) else Substituted(p, true, b, cur, newer)
    decreases |h|
  {
    if edge && IsHead(p, h) && AfterQuoted(b, cur).Some? {
      SubstitutedHit(p, h, b, cur, newer);
    } else {
      SubstitutedMiss(p, edge, h, b, cur, newer);
      if h == "" {
        assert "" + QUOTE == QUOTE;
      } else {
        var e := !IsWord(h[0]);
        SubstitutedSegment(p, e, h[1..], b, cur, newer);
        var x := if EndsInHead(p, e, h[1..]) then AfterFirst(p, b, cur, newer) else Substituted(p, true, b, cur, newer);
        RegroupFirst(h, QUOTE + x);
        Regroup(h[1..], QUOTE, x);
        Regroup(h, QUOTE, x);
      }
    }
  }

  lemma QuotedSegments(ss: seq<string>, cur: string)
    requires ss != [] && Unquoted(cur) && forall i :: 0 <= i < |ss| ==> Unquoted(ss[i])
    ensures AfterQuoted(Quote(ss), cur) == if |ss| > 1 && ss[0] == cur then Some(Quote(ss[1..])) else None
  {
    var q := cur + QUOTE;
    var t := Quote(ss);
    if q <= t {
      var y := t[|q|..];
      assert t == cur + QUOTE + y;
      assert t[|cur|] == '"' && '"' in t;
      if |ss| > 1 {
        FirstQuote(cur, y, ss[0], Quote(ss[1..]));
      }
    } else if |ss| > 1 {
      assert t == ss[0] + QUOTE + Quote(ss[1..]);
    }
  }

  lemma RewrittenShort(p: Form, ss: seq<string>, cur: string, newer: string)
    requires |ss| > 1 && !(|ss| > 2 && EndsInHead(p, true, ss[0]) && ss[1] == cur)
    ensures Rewritten(p, ss, cur, newer) == [ss[0]] + Rewritten(p, ss[1..], cur, newer)
  {
    assert |ss| == 2 ==> ss == [ss[0]] + ss[1..];
  }

  lemma QuoteOne(s: string, ss: seq<string>)
    requires ss != []
    ensures Quote([s] + ss) == s + QUOTE + Quote(ss)
  {
    assert ([s] + ss)[1..] == ss;
  }

  lemma QuoteTwo(s: string, t: string, ss: seq<string>)
    requires ss != []
    ensures Quote([s, t] + ss) == s + QUOTE + (t + QUOTE + Quote(ss))
  {
    assert [s, t] + ss == [s] + ([t] + ss);
    QuoteOne(t, ss);
    QuoteOne(s, [t] + ss);
  }

  /** Rewriting a text is rewriting its segments. */
  lemma {:induction false} SubstitutedIsRewritten(p: Form, ss: seq<string>, cur: string, newer: string)
    requires ss != [] && Unquoted(cur) && forall i :: 0 <= i < |ss| ==> Unquoted(ss[i])
    ensures Substituted(p, true, Quote(ss), cur, newer) == Quote(Rewritten(p, ss, cur, newer))
    decreases |ss|
  {
    if |ss| == 1 {
      SubstitutedUnquoted(p, true, ss[0], cur, newer);
    } else {
      var b := Quote(ss[1..]);
      SubstitutedSegment(p, true, ss[0], b, cur, newer);
      QuotedSegments(ss[1..], cur);
      assert ss[1..][1..] == ss[2..];
      if |ss| > 2 && EndsInHead(p, true, ss[0]) && ss[1] == cur {
        SubstitutedIsRewritten(p, ss[2..], cur, newer);
        QuoteTwo(ss[0], newer, Rewritten(p, ss[2..], cur, newer));
      } else {
        SubstitutedIsRewritten(p, ss[1..], cur, newer);
        RewrittenShort(p, ss, cur, newer);
        QuoteOne(ss[0], Rewritten(p, ss[1..], cur, newer));
      }
    }
  }

  // ---- What the bump changes ----

  /** The segment at `m` is the current version of a snippet. */
  predicate IsHit(p: Form, ss: seq<string>, m: nat, cur: string) {
    0 < m && m + 1 < |ss| && EndsInHead(p, true, ss[m - 1]) && ss[m] == cur
  }

  /** Only snippets of the current version change, and one is passed over only when the segment
      before it was itself replaced. */
  predicate ChangedAt(p: Form, ss: seq<string>, r: seq<string>, m: nat, cur: string, newer: string)
    requires m < |ss| == |r|
  {
    && (r[m] == ss[m] || (r[m] == newer && IsHit(p, ss, m, cur)))
    && (IsHit(p, ss, m, cur) ==> r[m] == newer || r[m - 1] == newer)
  }

  lemma {:induction false} RewrittenAt(p: Form, ss: seq<string>, m: nat, cur: string, newer: string)
    requires m < |ss|
    ensures ChangedAt(p, ss, Rewritten(p, ss, cur, newer), m, cur, newer)
    decreases |ss|
  {
    if |ss| >= 3 {
      if EndsInHead(p, true, ss[0]) && ss[1] == cur {
        if m >= 2 {
          RewrittenAt(p, ss[2..], m - 2, cur, newer);
          assert m > 2 ==> IsHit(p, ss[2..], m - 2, cur) == IsHit(p, ss, m, cur);
        }
      } else if m >= 1 {
        RewrittenAt(p, ss[1..], m - 1, cur, newer);
        assert m > 1 ==> IsHit(p, ss[1..], m - 1, cur) == IsHit(p, ss, m, cur);
      }
    }
  }

  /** When the current version ends in no head, exactly its snippets change. */
  lemma {:induction false} RewrittenExactly(p: Form, ss: seq<string>, m: nat, cur: string, newer: string)
    requires m < |ss| && !EndsInHead(p, true, cur) && !EndsInHead(p, true, newer)
    ensures Rewritten(p, ss, cur, newer)[m] == if IsHit(p, ss, m, cur) then newer else ss[m]
  {
    RewrittenAt(p, ss, m, cur, newer);
    if m > 0 {
      RewrittenAt(p, ss, m - 1, cur, newer);
    }
  }

  predicate IsAnyHit(ss: seq<string>, m: nat, cur: string) {
    IsHit(Plain, ss, m, cur) || IsHit(Table, ss, m, cur)
  }

  /** The two passes together change exactly the snippets of the current version, of either form. */
  lemma {:induction false} BumpedExactly(ss: seq<string>, m: nat, cur: string, newer: string)
    requires m < |ss| && !EndsInSomeHead(true, cur) && !EndsInSomeHead(true, newer)
    ensures |Bumped(ss, cur, newer)| == |ss|
    ensures Bumped(ss, cur, newer)[m] == if IsAnyHit(ss, m, cur) then newer else ss[m]
  {
    var r := Rewritten(Plain, ss, cur, newer);
    RewrittenExactly(Plain, ss, m, cur, newer);
    RewrittenExactly(Table, r, m, cur, newer);
    if m > 0 {
      RewrittenExactly(Plain, ss, m - 1, cur, newer);
    }
  }

  // ---- Bump, then check ----

  lemma {:induction false} LineTailCuts(h: string)
    ensures |LineTail(h)| <= |h| && h[|h| - |LineTail(h)|..] == LineTail(h)
    ensures |LineTail(h)| == |h| || IsBreak(h[|h| - |LineTail(h)| - 1])
  {
    if h != "" && !IsBreak(h[|h| - 1]) {
      LineTailCuts(h[..|h| - 1]);
    }
  }

  lemma {:induction false} HeadAfterBreak(p: Form, edge: bool, x: string, t: string)
    requires EndsInHead(p, true, t) && (if x == "" then edge else IsBreak(x[|x| - 1]))
    ensures EndsInHead(p, edge, x + t)
    decreases |x|
  {
    if x == "" {
      assert x + t == t;
    } else {
      assert (x + t)[0] == x[0] && (x + t)[1..] == x[1..] + t;
      HeadAfterBreak(p, !IsWord(x[0]), x[1..], t);
    }
  }

  /** A head at the end of a line is a head at the end of the text. */
  lemma {:induction false} TailHead(h: string)
    requires EndsInSomeHead(true, LineTail(h))
    ensures EndsInSomeHead(true, h)
  {
    var t := LineTail(h);
    forall p: Form | EndsInHead(p, true, t) ensures EndsInHead(p, true, h) {
      LineTailCuts(h);
      HeadAfterBreak(p, true, h[..|h| - |t|], t);
      assert h == h[..|h| - |t|] + t;
    }
  }

  /** A snippet on one line that the bump left at another version was there before, untouched. */
  lemma OldSnippet(ss: seq<string>, m: nat, cur: string, newer: string)
    requires !EndsInSomeHead(true, newer) && OnLine(Bumped(ss, cur, newer), m)
    requires Bumped(ss, cur, newer)[m + 1] != newer
    ensures OnLine(ss, m) && ss[m + 1] == Bumped(ss, cur, newer)[m + 1] && ss[m + 1] != cur
  {
    var r := Rewritten(Plain, ss, cur, newer);
    var b := Bumped(ss, cur, newer);
    TailHead(b[m]);
    RewrittenAt(Table, r, m, cur, newer);
    RewrittenAt(Table, r, m + 1, cur, newer);
    RewrittenAt(Plain, ss, m, cur, newer);
    RewrittenAt(Plain, ss, m + 1, cur, newer);
  }

  /** What the checker accepts at the current version, it accepts at the new one after the bump, for
      every document, every current version a manifest can hold and every admitted new version. */
  lemma {:induction false} CheckedStaysChecked(text: string, out: string, cur: string, newer: string)
    requires Admitted(newer) && Unquoted(cur) && Segments(out) == Bumped(Segments(text), cur, newer)
    requires Accepts(text, cur)
    ensures Accepts(out, newer)
  {
    AdmittedIsNoHead(newer);
    var ss, b := Segments(text), Segments(out);
    forall m | 0 <= m < |b| ensures Fits(b, m, newer) {
      assert Fits(ss, m, cur);
      if OnLine(b, m) && b[m + 1] != newer {
        OldSnippet(ss, m, cur, newer);
      }
    }
  }

  /** The snippet on one line at `m` is at the current version or already at the new one. */
  predicate FitsEither(ss: seq<string>, m: nat, cur: string, newer: string) {
    OnLine(ss, m) ==> ss[m + 1] == cur || ss[m + 1] == newer
  }

  lemma BumpedFits(ss: seq<string>, m: nat, cur: string, newer: string)
    requires m < |ss| && !EndsInSomeHead(true, cur) && Admitted(newer)
    ensures Fits(Bumped(ss, cur, newer), m, newer) <==> FitsEither(ss, m, cur, newer)
  {
    AdmittedIsNoHead(newer);
    BumpedExactly(ss, m, cur, newer);
    var b := Bumped(ss, cur, newer);
    if OnLine(b, m) && b[m + 1] != newer {
      OldSnippet(ss, m, cur, newer);
    }
    if OnLine(ss, m) && ss[m + 1] != cur && ss[m + 1] != newer {
      TailHead(ss[m]);
      BumpedExactly(ss, m + 1, cur, newer);
    }
  }

  /** From a version that ends in no head, the check accepts the bumped document exactly when every
      snippet on one line was at the old or the new version. */
  lemma {:induction false} BumpedIsAcceptedExactly(text: string, out: string, cur: string, newer: string)
    requires !EndsInSomeHead(true, cur) && Admitted(newer) && Segments(out) == Bumped(Segments(text), cur, newer)
    ensures Accepts(out, newer) <==> forall m :: 0 <= m < |Segments(text)| ==> FitsEither(Segments(text), m, cur, newer)
  {
    AdmittedIsNoHead(newer);
    var ss, b := Segments(text), Segments(out);
    forall m | 0 <= m < |ss| ensures Fits(b, m, newer) <==> FitsEither(ss, m, cur, newer) {
      BumpedFits(ss, m, cur, newer);
    }
    assert |b| == |ss| by {
      BumpedExactly(ss, 0, cur, newer);
    }
  }

  lemma BackAt(ss: seq<string>, m: nat, cur: string, newer: string)
    requires m < |ss| && Admitted(cur) && Admitted(newer) && cur != newer
    ensures |Bumped(Bumped(ss, cur, newer), newer, cur)| == |Bumped(ss, cur, newer)| == |ss|
    ensures Bumped(Bumped(ss, cur, newer), newer, cur)[m] == ss[m] <==> !IsAnyHit(ss, m, newer)
  {
    AdmittedIsNoHead(cur);
    AdmittedIsNoHead(newer);
    BumpedExactly(ss, m, cur, newer);
    if m > 0 {
      BumpedExactly(ss, m - 1, cur, newer);
    }
    BumpedExactly(Bumped(ss, cur, newer), m, newer, cur);
  }

  /** Bumping back gives the document back exactly when it held no snippet of the new version. */
  lemma {:induction false} BumpedBack(ss: seq<string>, cur: string, newer: string)
    requires Admitted(cur) && Admitted(newer) && cur != newer
    ensures Bumped(Bumped(ss, cur, newer), newer, cur) == ss <==> forall m :: 0 <= m < |ss| ==> !IsAnyHit(ss, m, newer)
  {
    AdmittedIsNoHead(cur);
    AdmittedIsNoHead(newer);
    var b := Bumped(ss, cur, newer);
    var back := Bumped(b, newer, cur);
    if ss != [] {
      BumpedExactly(ss, 0, cur, newer);
      BumpedExactly(b, 0, newer, cur);
    }
    forall m | 0 <= m < |ss| ensures back[m] == ss[m] <==> !IsAnyHit(ss, m, newer) {
      BackAt(ss, m, cur, newer);
    }
  }

  // ---- The bump of a document ----

  /** Both patterns, one after the other. What the checker accepted at the old version it accepts at
      the new one. */
  method BumpSnippets(text: string, cur: string, newer: string) returns (out: string)
    requires Unquoted(cur) && Admitted(newer)
    ensures Segments(out) == Bumped(Segments(text), cur, newer)
    ensures Accepts(text, cur) ==> Accepts(out, newer)
  {
    AdmittedIsNoHead(newer);
    var ss := Segments(text);
    QuoteSegments(text);
    out := Substitute(Plain, text, cur, newer);
    SubstitutedIsRewritten(Plain, ss, cur, newer);
    RewrittenUnquoted(Plain, ss, cur, newer);
    RewrittenUnquoted(Table, Rewritten(Plain, ss, cur, newer), cur, newer);
    out := Substitute(Table, out, cur, newer);
    SubstitutedIsRewritten(Table, Rewritten(Plain, ss, cur, newer), cur, newer);
    SegmentsQuote(Bumped(ss, cur, newer));
    if Accepts(text, cur) {
      CheckedStaysChecked(text, out, cur, newer);
    }
  }
}
