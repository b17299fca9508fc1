/** The pins of internal dependencies in the root manifest (scripts/bump-version.py): the substitution,
    character by character, and what it changes between quotation marks. */
module ManifestPins {
  import opened TextLines
  import opened Wrappers
  import opened VersionSnippets
  import opened DocVersions
  import opened VersionBump

  const PATH_KEY := " = { path = "
  const PIN_KEY := ", version = "

  // ---- The substitution, character by character ----

  /** `[^"]*` */
  function SkipPath(s: string): (r: string)
    ensures |r| <= |s|
  {
    if s != "" && s[0] != '"' then SkipPath(s[1..]) else s
  }

  /** Reads a pin's name, `= { path = "..."` and `version = "`, and returns what follows. */
  function SkipPin(s: string): Option<string> {
    var f := SkipFamily(s);
    if f.None? then None else
      var n := Skip(NameChar, f.value);
      var p := AfterQuoted(n, PATH_KEY);
      if n == f.value || p.None? then None else
        var v := Literal(QUOTE, SkipPath(p.value));
        if SkipPath(p.value) == p.value || v.None? then None else AfterQuoted(v.value, PIN_KEY)
  }

  /** A pin of the current version starts here, at the beginning of a line: what follows it. */
  function AfterPin(lineStart: bool, s: string, cur: string): Option<string> {
    if lineStart && SkipPin(s).Some? then AfterQuoted(SkipPin(s).value, cur) else None
  }

  lemma SkipPinIsShorter(s: string)
    requires SkipPin(s).Some?
    ensures |SkipPin(s).value| < |s|
  {
  }

  /** `re.subn`: from left to right, each pin of `cur` becomes one of `newer`. */
  function PinsSubstituted(lineStart: bool, s: string, cur: string, newer: string): string
    decreases |s|
  {
    if s == "" then "" else
      var t := AfterPin(lineStart, s, cur);
      if t.Some? then
        SkipPinIsShorter(s);
        Renamed(s, t.value, cur, newer) + PinsSubstituted(false, t.value, cur, newer)
      else [s[0]] + PinsSubstituted(s[0] == '\n', s[1..], cur, newer)
  }

  // ---- The substitution on segments ----

  /** A whole segment is a package name that opens its path. */
  predicate IsPinHead(h: string) {
    SkipFamily(h).Some? &&
    var f := SkipFamily(h).value;
    Skip(NameChar, f) != f && Skip(NameChar, f) == PATH_KEY
  }

  /** A segment ends in such a head, at the beginning of a line. */
  predicate EndsInPinHead(lineStart: bool, h: string)
    decreases |h|
  {
    (lineStart && IsPinHead(h)) || (h != "" && EndsInPinHead(h[0] == '\n', h[1..]))
  }

  /** The segments after a pin's head: its path, the key and the current version. */
  predicate PinFollows(ss: seq<string>, cur: string) {
    |ss| > 3 && ss[0] != "" && ss[1] == PIN_KEY && ss[2] == cur
  }

  /** The segments with each pin of the current version at the new one. */
  function Pinned(lineStart: bool, ss: seq<string>, cur: string, newer: string): (r: seq<string>)
    ensures |r| == |ss|
  {
    if ss == [] then []
    else if EndsInPinHead(lineStart, ss[0]) && PinFollows(ss[1..], cur) then
      [ss[0], ss[1], ss[2], newer] + Pinned(false, ss[4..], cur, newer)
    else [ss[0]] + Pinned(false, ss[1..], cur, newer)
  }

  lemma {:induction false} SkipPathSegment(h: string, b: string)
    requires Unquoted(h)
    ensures SkipPath(h + QUOTE + b) == QUOTE + b && SkipPath(h) == ""
  {
    var s := h + QUOTE + b;
    if h == "" {
      assert s == QUOTE + b;
    } else {
      assert s[1..] == h[1..] + QUOTE + b && s[0] == h[0];
      SkipPathSegment(h[1..], b);
    }
  }

  lemma AfterQuotedUnquoted(s: string, key: string)
    requires Unquoted(s)
    ensures AfterQuoted(s, key).None?
  {
    assert (key + QUOTE)[|key|] == '"';
    if key + QUOTE <= s {
      InPrefix(key + QUOTE, s, '"');
    }
  }

  /** What is read of a pin from the path on. */
  function AfterPath(s: string): Option<string> {
    var v := Literal(QUOTE, SkipPath(s));
    if SkipPath(s) == s || v.None? then None else AfterQuoted(v.value, PIN_KEY)
  }

  lemma {:induction false} PathSegment(ss: seq<string>)
    requires ss != [] && AllUnquoted(ss)
    ensures AfterPath(Quote(ss)) == if |ss| > 2 && ss[0] != "" && ss[1] == PIN_KEY then Some(Quote(ss[2..])) else None
  {
    if |ss| == 1 {
      SkipPathSegment(ss[0], "");
    } else {
      var b := Quote(ss[1..]);
      SkipPathSegment(ss[0], b);
      assert Quote(ss) == ss[0] + QUOTE + b;
      assert |QUOTE + b| == |Quote(ss)| <==> ss[0] == "";
      assert (QUOTE + b)[1..] == b;
      QuotedSegments(ss[1..], PIN_KEY);
      assert ss[1..][1..] == ss[2..];
    }
  }

  lemma {:induction false} PinSegment(h: string, ss: seq<string>)
    requires Unquoted(h) && ss != [] && AllUnquoted(ss)
    ensures SkipPin(h + QUOTE + Quote(ss)) ==
            if IsPinHead(h) && |ss| > 2 && ss[0] != "" && ss[1] == PIN_KEY then Some(Quote(ss[2..])) else None
  {
    var b := Quote(ss);
    FamilySegment(h, b);
    if SkipFamily(h).Some? {
      var f := SkipFamily(h).value;
      SkipSegment(NameChar, f, b);
      var n := Skip(NameChar, f);
      SkipUnquoted(NameChar, f);
      assert n + QUOTE + b == f + QUOTE + b <==> n == f by {
        var w := SkipRun(NameChar, f);
        assert |n + QUOTE + b| == |n| + 1 + |b| && |f + QUOTE + b| == |f| + 1 + |b|;
      }
      QuoteOne(n, ss);
      assert AllUnquoted([n] + ss);
      QuotedSegments([n] + ss, PATH_KEY);
      assert ([n] + ss)[1..] == ss;
      PathSegment(ss);
    }
  }

  lemma SkipPinUnquoted(s: string)
    requires Unquoted(s)
    ensures SkipPin(s).None?
  {
    if SkipFamily(s).Some? {
      SkipUnquoted(NameChar, SkipFamily(s).value);
      AfterQuotedUnquoted(Skip(NameChar, SkipFamily(s).value), PATH_KEY);
    }
  }

  lemma {:induction false} PinsSubstitutedUnquoted(lineStart: bool, s: string, cur: string, newer: string)
    requires Unquoted(s)
    ensures PinsSubstituted(lineStart, s, cur, newer) == s
    decreases |s|
  {
    if s != "" {
      SkipPinUnquoted(s);
      PinsSubstitutedUnquoted(s[0] == '\n', s[1..], cur, newer);
      assert [s[0]] + s[1..] == s;
    }
  }

  /** Where a pin of the current version starts, and what follows it. */
  lemma {:induction false} AfterPinSegment(lineStart: bool, h: string, ss: seq<string>, cur: string)
    requires Unquoted(h) && ss != [] && AllUnquoted(ss) && Unquoted(cur)
    ensures AfterPin(lineStart, h + QUOTE + Quote(ss), cur) ==
            if lineStart && IsPinHead(h) && PinFollows(ss, cur) then Some(Quote(ss[3..])) else None
  {
    PinSegment(h, ss);
    if |ss| > 2 {
      QuotedSegments(ss[2..], cur);
      assert ss[2..][1..] == ss[3..];
    }
  }

  /** The text of a pin after its head, substituted, and of what follows it. */
  function PinText(ss: seq<string>, v: string, rest: string): string
    requires |ss| > 1
  {
    ss[0] + QUOTE + (ss[1] + QUOTE + (v + QUOTE + rest))
  }

  lemma QuotePin(ss: seq<string>, v: string)
    requires |ss| > 3 && ss[2] == v
    ensures Quote(ss) == PinText(ss, v, Quote(ss[3..]))
  {
    QuoteOne(ss[0], ss[1..]);
    QuoteOne(ss[1], ss[2..]);
    QuoteOne(ss[2], ss[3..]);
    assert ss == [ss[0]] + ss[1..] && ss[1..] == [ss[1]] + ss[2..] && ss[2..] == [ss[2]] + ss[3..];
  }

  lemma RenamedPin(h: string, ss: seq<string>, cur: string, newer: string, rest: string, next: string)
    requires |ss| > 1
    ensures |rest| + |cur| < |h + QUOTE + PinText(ss, cur, rest)|
    ensures Renamed(h + QUOTE + PinText(ss, cur, rest), rest, cur, newer) + next == h + QUOTE + PinText(ss, newer, next)
  {
    var head := h + QUOTE + (ss[0] + QUOTE + (ss[1] + QUOTE));
    var s := h + QUOTE + PinText(ss, cur, rest);
    assert s == head + (cur + QUOTE + rest);
    assert s[..|s| - |rest| - |cur| - 1] == head;
    assert head + newer + QUOTE + next == h + QUOTE + PinText(ss, newer, next);
  }

  lemma {:induction false} PinsSubstitutedHit(h: string, ss: seq<string>, cur: string, newer: string)
    requires Unquoted(h) && AllUnquoted(ss) && Unquoted(cur) && IsPinHead(h) && PinFollows(ss, cur)
    ensures PinsSubstituted(true, h + QUOTE + Quote(ss), cur, newer) ==
            h + QUOTE + PinText(ss, newer, PinsSubstituted(false, Quote(ss[3..]), cur, newer))
  {
    AfterPinSegment(true, h, ss, cur);
    QuotePin(ss, cur);
    var rest := Quote(ss[3..]);
    var s := h + QUOTE + Quote(ss);
    var next := PinsSubstituted(false, rest, cur, newer);
    RenamedPin(h, ss, cur, newer, rest, next);
    assert PinsSubstituted(true, s, cur, newer) == Renamed(s, rest, cur, newer) + next;
  }

  lemma {:induction false} PinsSubstitutedMiss(lineStart: bool, h: string, ss: seq<string>, cur: string, newer: string)
    requires Unquoted(h) && ss != [] && AllUnquoted(ss) && Unquoted(cur)
    requires !(lineStart && IsPinHead(h) && PinFollows(ss, cur))
    ensures PinsSubstituted(lineStart, h + QUOTE + Quote(ss), cur, newer) ==
            if h == "" then QUOTE + PinsSubstituted(false, Quote(ss), cur, newer)
            else [h[0]] + PinsSubstituted(h[0] == '\n', h[1..] + QUOTE + Quote(ss), cur, newer)
  {
    var s := h + QUOTE + Quote(ss);
    AfterPinSegment(lineStart, h, ss, cur);
    if h == "" {
      assert s[0] == '"' && s[1..] == Quote(ss);
    } else {
      assert s[0] == h[0] && s[1..] == h[1..] + QUOTE + Quote(ss);
    }
  }

  lemma {:induction false} PinsSubstitutedSegment(lineStart: bool, h: string, ss: seq<string>, cur: string, newer: string)
    requires Unquoted(h) && ss != [] && AllUnquoted(ss) && Unquoted(cur)
    ensures PinsSubstituted(lineStart, h + QUOTE + Quote(ss), cur, newer) ==
            h + QUOTE + if EndsInPinHead(lineStart, h) && PinFollows(ss, cur)
                        then PinText(ss, newer, PinsSubstituted(false, Quote(ss[3..]), cur, newer))
                        else PinsSubstituted(false, Quote(ss), cur, newer)
    decreases |h|
  {
    if lineStart && IsPinHead(h) && PinFollows(ss, cur) {
      PinsSubstitutedHit(h, ss, cur, newer);
    } else {
      PinsSubstitutedMiss(lineStart, h, ss, cur, newer);
      if h == "" {
        assert "" + QUOTE == QUOTE;
      } else {
        var next := h[0] == '\n';
        PinsSubstitutedSegment(next, h[1..], ss, cur, newer);
        var x := if EndsInPinHead(next, h[1..]) && PinFollows(ss, cur)
                 then PinText(ss, newer, PinsSubstituted(false, Quote(ss[3..]), cur, newer))
                 else PinsSubstituted(false, Quote(ss), cur, newer);
        RegroupFirst(h, QUOTE + x);
        Regroup(h[1..], QUOTE, x);
        Regroup(h, QUOTE, x);
      }
    }
  }

  lemma QuotePinned(s: string, ss: seq<string>, v: string, rest: seq<string>)
    requires |ss| > 1 && rest != []
    ensures Quote([s, ss[0], ss[1], v] + rest) == s + QUOTE + PinText(ss, v, Quote(rest))
  {
    var ts := [ss[0], ss[1], v] + rest;
    assert ts[3..] == rest && [s] + ts == [s, ss[0], ss[1], v] + rest;
    QuotePin(ts, v);
    QuoteOne(s, ts);
  }

  /** Substituting pins in a text is replacing the current versions of its pins between quotation marks. */
  lemma {:induction false} PinsSubstitutedIsPinned(lineStart: bool, ss: seq<string>, cur: string, newer: string)
    requires ss != [] && AllUnquoted(ss) && Unquoted(cur)
    ensures PinsSubstituted(lineStart, Quote(ss), cur, newer) == Quote(Pinned(lineStart, ss, cur, newer))
    decreases |ss|
  {
    if |ss| == 1 {
      PinsSubstitutedUnquoted(lineStart, ss[0], cur, newer);
      assert Pinned(lineStart, ss, cur, newer) == ss;
    } else {
      PinsSubstitutedSegment(lineStart, ss[0], ss[1..], cur, newer);
      assert Quote(ss) == ss[0] + QUOTE + Quote(ss[1..]);
      if EndsInPinHead(lineStart, ss[0]) && PinFollows(ss[1..], cur) {
        assert ss[1..][3..] == ss[4..];
        PinsSubstitutedIsPinned(false, ss[4..], cur, newer);
        QuotePinned(ss[0], ss[1..], newer, Pinned(false, ss[4..], cur, newer));
      } else {
        PinsSubstitutedIsPinned(false, ss[1..], cur, newer);
        QuoteOne(ss[0], Pinned(false, ss[1..], cur, newer));
      }
    }
  }

  method SubstitutePins(text: string, cur: string, newer: string) returns (out: string)
    requires Unquoted(cur)
    ensures out == Quote(Pinned(true, Segments(text), cur, newer))
  {
    out := "";
    var rest, lineStart := text, true;
    while rest != ""
      invariant out + PinsSubstituted(lineStart, rest, cur, newer) == PinsSubstituted(true, text, cur, newer)
      decreases |rest|
    {
      var t := AfterPin(lineStart, rest, cur);
      if t.Some? {
        SkipPinIsShorter(rest);
        Regroup(out, Renamed(rest, t.value, cur, newer), PinsSubstituted(false, t.value, cur, newer));
        out := out + Renamed(rest, t.value, cur, newer);
        rest, lineStart := t.value, false;
      } else {
        out := out + [rest[0]];
        rest, lineStart := rest[1..], rest[0] == '\n';
      }
    }
    QuoteSegments(text);
    PinsSubstitutedIsPinned(true, Segments(text), cur, newer);
  }

  // ---- What the substitution changes ----

  /** The segment at `m` is the current version of a pin. */
  predicate IsPin(lineStart: bool, ss: seq<string>, m: nat, cur: string) {
    && 3 <= m < |ss| - 1
    && EndsInPinHead(lineStart && m == 3, ss[m - 3])
    && ss[m - 2] != "" && ss[m - 1] == PIN_KEY && ss[m] == cur
  }

  lemma {:induction false} PinHeadEnd(lineStart: bool, h: string)
    requires EndsInPinHead(lineStart, h)
    ensures |h| > |PATH_KEY| && h[|h| - 4] == 'h' && h[|h| - 1] == ' '
    decreases |h|
  {
    if lineStart && IsPinHead(h) {
      var f := SkipFamily(h).value;
      var w := SkipRun(NameChar, f);
      assert h[|h| - |f|..] == f && f == w + PATH_KEY;
    } else {
      PinHeadEnd(h[0] == '\n', h[1..]);
    }
  }

  lemma {:induction false} KeyIsNoPinHead(lineStart: bool)
    ensures !EndsInPinHead(lineStart, PIN_KEY)
  {
    if EndsInPinHead(lineStart, PIN_KEY) {
      PinHeadEnd(lineStart, PIN_KEY);
    }
  }

  lemma {:induction false} AdmittedIsNoPinHead(lineStart: bool, v: string)
    requires Admitted(v)
    ensures !EndsInPinHead(lineStart, v) && v != PIN_KEY
  {
    AdmittedIsNoHead(v);
    assert IsVersionChar(v[0]) && IsVersionChar(v[|v| - 1]);
    if EndsInPinHead(lineStart, v) {
      PinHeadEnd(lineStart, v);
    }
  }

  lemma {:induction false} PinAfterSegment(lineStart: bool, ss: seq<string>, m: nat, cur: string)
    requires 1 <= m < |ss| && !(EndsInPinHead(lineStart, ss[0]) && PinFollows(ss[1..], cur))
    ensures IsPin(false, ss[1..], m - 1, cur) <==> IsPin(lineStart, ss, m, cur)
  {
    if m == 3 && IsPin(lineStart, ss, m, cur) {
      assert PinFollows(ss[1..], cur);
    }
  }

  lemma {:induction false} PinAfterPin(lineStart: bool, ss: seq<string>, m: nat, cur: string)
    requires 7 <= m < |ss|
    ensures IsPin(false, ss[4..], m - 4, cur) <==> IsPin(lineStart, ss, m, cur)
  {
    var rest := ss[4..];
    assert rest[m - 7] == ss[m - 3] && rest[m - 6] == ss[m - 2] && rest[m - 5] == ss[m - 1] && rest[m - 4] == ss[m];
  }

  /** No pin starts inside another. */
  lemma {:induction false} NoPinInPin(lineStart: bool, ss: seq<string>, m: nat, cur: string)
    requires 4 <= m < 7 && m < |ss| && ss[3] == cur
    requires cur != PIN_KEY && !EndsInPinHead(false, cur) && !EndsInPinHead(false, ss[2])
    ensures !IsPin(false, ss[4..], m - 4, cur) && !IsPin(lineStart, ss, m, cur)
  {
  }

  /** From a version that opens no pin and is not a pin's key, exactly the versions of its pins change. */
  lemma {:induction false} PinnedExactly(lineStart: bool, ss: seq<string>, m: nat, cur: string, newer: string)
    requires m < |ss| && cur != PIN_KEY && !EndsInPinHead(false, cur)
    ensures Pinned(lineStart, ss, cur, newer)[m] == if IsPin(lineStart, ss, m, cur) then newer else ss[m]
    decreases |ss|
  {
    if EndsInPinHead(lineStart, ss[0]) && PinFollows(ss[1..], cur) {
      if m >= 4 {
        PinnedExactly(false, ss[4..], m - 4, cur, newer);
        if m < 7 {
          KeyIsNoPinHead(false);
          NoPinInPin(lineStart, ss, m, cur);
        } else {
          PinAfterPin(lineStart, ss, m, cur);
        }
      }
    } else if m >= 1 {
      PinnedExactly(false, ss[1..], m - 1, cur, newer);
      PinAfterSegment(lineStart, ss, m, cur);
    }
  }
}
