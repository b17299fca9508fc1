/** The version part of scripts/check-doc-versions.py: the snippets of each line of a document, and
    the versions found in them. */
module DocVersions {
  import opened TextLines
  import opened Wrappers
  import opened VersionSnippets

  // ---- Lines ----

  /** The characters `str.splitlines` cuts at. A document read as text has no carriage return left. */
  predicate IsBreak(c: char) {
    '\n' <= c <= '\r' || '\U{001C}' <= c <= '\U{001E}' || c == '\U{0085}' || c == '\U{2028}' || c == '\U{2029}'
  }

  predicate Unbroken(s: string) {
    forall i :: 0 <= i < |s| ==> !IsBreak(s[i])
  }

  /** `text.splitlines()`; `line` is the part of the current line already read. */
  function LinesFrom(line: string, s: string): seq<string>
    decreases |s|
  {
    if s == "" then if line == "" then [] else [line]
    else if IsBreak(s[0]) then [line] + LinesFrom("", s[1..])
    else LinesFrom(line + [s[0]], s[1..])
  }

  function SplitLines(s: string): seq<string> {
    LinesFrom("", s)
  }

  lemma {:induction false} LinesOfPair(line: string, s: string, rest: string)
    requires Unbroken(s)
    ensures LinesFrom(line, s + rest) == LinesFrom(line + s, rest)
    decreases |s|
  {
    if s == "" {
      assert s + rest == rest && line + s == line;
    } else {
      assert (s + rest)[1..] == s[1..] + rest && (s + rest)[0] == s[0];
      LinesOfPair(line + [s[0]], s[1..], rest);
      assert line + [s[0]] + s[1..] == line + s;
    }
  }

  /** The end of a text from its last line break on. */
  function LineTail(s: string): string {
    if s == "" || IsBreak(s[|s| - 1]) then "" else LineTail(s[..|s| - 1]) + [s[|s| - 1]]
  }

  // ---- Finding versions ----

  /** The version and its closing quotation mark, after the head: the version and what follows. */
  function TakeVersion(o: Option<string>): Option<(string, string)> {
    if o.None? then None else
      var s := o.value;
      var v := AfterVersion(s);
      if v.Some? && QUOTE <= v.value then Some((s[..|s| - |v.value|], v.value[1..])) else None
  }

  /** A snippet starts here: its version and what follows it. */
  function TakeSnippet(edge: bool, s: string): Option<(string, string)> {
    if !edge then None
    else if TakeVersion(AfterHead(Plain, s)).Some? then TakeVersion(AfterHead(Plain, s))
    else TakeVersion(AfterHead(Table, s))
  }

  lemma TakenIsShorter(edge: bool, s: string)
    requires TakeSnippet(edge, s).Some?
    ensures |TakeSnippet(edge, s).value.1| < |s|
  {
    forall p | AfterHead(p, s).Some? ensures |AfterHead(p, s).value| < |s| {
      AfterHeadIsShorter(p, s);
    }
  }

  /** `finditer`: the versions of the snippets of a line, from left to right. */
  function Found(edge: bool, s: string): seq<string>
    decreases |s|
  {
    if s == "" then [] else
      var t := TakeSnippet(edge, s);
      if t.Some? then
        TakenIsShorter(edge, s);
        [t.value.0] + Found(true, t.value.1)
      else Found(!IsWord(s[0]), s[1..])
  }

  // ---- Finding versions on segments ----

  predicate EndsInSomeHead(edge: bool, h: string) {
    EndsInHead(Plain, edge, h) || EndsInHead(Table, edge, h)
  }

  /** The segment at `m` ends in a head, and the next one, up to a quotation mark, is a version. */
  predicate IsSnippet(ss: seq<string>, m: nat) {
    m + 2 < |ss| && EndsInSomeHead(true, ss[m]) && IsVersion(ss[m + 1])
  }

  function FoundIn(ss: seq<string>): seq<string> {
    if |ss| < 3 then []
    else if IsSnippet(ss, 0) then [ss[1]] + FoundIn(ss[2..])
    else FoundIn(ss[1..])
  }

  lemma EqualsLast(x: string, e: string)
    requires IsEquals(e)
    ensures x + e != "" && ((x + e)[|x + e| - 1] == '=' || IsSpace((x + e)[|x + e| - 1]))
  {
    var w, v :| All(Space, w) && All(Space, v) && e == w + "=" + v;
    var last := (x + e)[|x + e| - 1];
    assert last == e[|e| - 1];
    assert if v == "" then last == '=' else last == v[|v| - 1] && In(Space, v[|v| - 1]);
  }

  predicate EndsOpen(h: string) {
    h != "" && (h[|h| - 1] == '=' || IsSpace(h[|h| - 1]))
  }

  lemma TableHeadLast(h: string)
    requires IsTableHead(h)
    ensures EndsOpen(h)
  {
    var name, d, w, f :|
      IsPackage(name) && IsEquals(d) && All(Space, w) && IsEquals(f) && h == name + d + ("{" + w + "version" + f);
    var x := name + d + ("{" + w + "version");
    assert h == x + f;
    EqualsLast(x, f);
  }

  lemma HeadLast(p: Form, h: string)
    requires IsHead(p, h)
    ensures EndsOpen(h)
  {
    if p == Plain {
      PlainHeadMeaning(h);
      var name, f :| IsPackage(name) && IsEquals(f) && h == name + f;
      EqualsLast(name, f);
    } else {
      TableHeadMeaning(h);
      TableHeadLast(h);
    }
  }

  /** A segment that ends in a head ends with `=` or white space. */
  lemma {:induction false} EndsInHeadLast(p: Form, edge: bool, h: string)
    requires EndsInHead(p, edge, h)
    ensures EndsOpen(h)
    decreases |h|
  {
    if edge && IsHead(p, h) {
      HeadLast(p, h);
    } else {
      EndsInHeadLast(p, !IsWord(h[0]), h[1..]);
    }
  }

  lemma DottedChars(v: string, a: string, b: string, c: string)
    requires IsDotted(v, a, b, c)
    ensures forall i :: 0 <= i < |v| ==> IsDigit(v[i]) || v[i] == '.'
  {
    forall i | 0 <= i < |v| ensures IsDigit(v[i]) || v[i] == '.' {
      assert i < |a| ==> v[i] == a[i] && In(Digit, a[i]);
      assert |a| < i < |a| + 1 + |b| ==> v[i] == b[i - |a| - 1] && In(Digit, b[i - |a| - 1]);
      assert |a| + |b| + 1 < i ==> v[i] == c[i - |a| - |b| - 2] && In(Digit, c[i - |a| - |b| - 2]);
    }
  }

  lemma VersionLast(v: string)
    requires IsVersion(v)
    ensures v != "" && IsDigit(v[|v| - 1]) && Unquoted(v) && Unbroken(v)
  {
    VersionMeaning(v);
    var a, b, c :| IsDotted(v, a, b, c);
    DottedChars(v, a, b, c);
    assert v[|v| - 1] == c[|c| - 1] && In(Digit, c[|c| - 1]);
    forall i | 0 <= i < |v| ensures !IsSpace(v[i]) {
      if IsDigit(v[i]) {
        DigitIsNoSpace(v[i]);
      }
    }
  }

  /** A version ends in no head. */
  lemma VersionIsNoHead(v: string)
    requires IsVersion(v)
    ensures !EndsInSomeHead(true, v)
  {
    VersionLast(v);
    DigitIsNoSpace(v[|v| - 1]);
    if p: Form :| EndsInHead(p, true, v) {
      EndsInHeadLast(p, true, v);
    }
  }

  predicate HasVersion(ss: seq<string>, v: string) {
    exists m :: 0 <= m < |ss| && IsSnippet(ss, m) && ss[m + 1] == v
  }

  /** No snippet is lost to an earlier one: the versions found are those of all snippets. */
  lemma {:induction false} FoundExactly(ss: seq<string>, v: string)
    ensures v in FoundIn(ss) <==> HasVersion(ss, v)
    decreases |ss|
  {
    if |ss| >= 3 {
      var k := if IsSnippet(ss, 0) then 2 else 1;
      FoundExactly(ss[k..], v);
      if IsSnippet(ss, 0) {
        VersionIsNoHead(ss[1]);
        assert !IsSnippet(ss, 1);
      }
      if HasVersion(ss[k..], v) {
        var m :| 0 <= m < |ss[k..]| && IsSnippet(ss[k..], m) && ss[k..][m + 1] == v;
        assert IsSnippet(ss, m + k) && ss[m + k + 1] == v;
      }
      if HasVersion(ss, v) {
        var m :| 0 <= m < |ss| && IsSnippet(ss, m) && ss[m + 1] == v;
        if m >= k {
          assert IsSnippet(ss[k..], m - k) && ss[k..][m - k + 1] == v;
        }
      }
    }
  }

  lemma AfterVersionUnquoted(s: string)
    requires Unquoted(s) && AfterVersion(s).Some?
    ensures Unquoted(AfterVersion(s).value)
  {
    var a := Skip(Digit, s);
    SkipUnquoted(Digit, s);
    var b := Skip(Digit, a[1..]);
    SkipUnquoted(Digit, a[1..]);
    SkipUnquoted(Digit, b[1..]);
  }

  lemma TakeVersionOf(s: string, b: string)
    requires Unquoted(s)
    ensures TakeVersion(Some(s + QUOTE + b)) == if IsVersion(s) then Some((s, b)) else None
  {
    VersionSegment(s, b);
    var t := s + QUOTE + b;
    if AfterVersion(s).Some? {
      AfterVersionUnquoted(s);
      var r := AfterVersion(s).value;
      var q := r + QUOTE + b;
      assert q[0] == if r == "" then '"' else r[0];
      if r == "" {
        assert q[1..] == b && t[..|t| - |q|] == s;
      }
    }
  }

  lemma TakeVersionUnquoted(s: string)
    requires Unquoted(s)
    ensures TakeVersion(Some(s)).None?
  {
    if AfterVersion(s).Some? {
      AfterVersionUnquoted(s);
      assert QUOTE[0] == '"';
      if QUOTE <= AfterVersion(s).value {
        InPrefix(QUOTE, AfterVersion(s).value, '"');
      }
    }
  }

  predicate AllUnquoted(ss: seq<string>) {
    forall i :: 0 <= i < |ss| ==> Unquoted(ss[i])
  }

  lemma TakeSnippetOf(edge: bool, h: string, ss: seq<string>)
    requires Unquoted(h) && ss != [] && AllUnquoted(ss)
    ensures TakeSnippet(edge, h + QUOTE + Quote(ss)) ==
            if edge && (IsHead(Plain, h) || IsHead(Table, h)) && |ss| > 1 && IsVersion(ss[0])
            then Some((ss[0], Quote(ss[1..]))) else None
  {
    var b := Quote(ss);
    HeadSegment(Plain, h, b);
    HeadSegment(Table, h, b);
    if |ss| == 1 {
      TakeVersionUnquoted(ss[0]);
    } else {
      TakeVersionOf(ss[0], Quote(ss[1..]));
    }
  }

  lemma {:induction false} FoundSegment(edge: bool, h: string, ss: seq<string>)
    requires Unquoted(h) && ss != [] && AllUnquoted(ss)
    ensures Found(edge, h + QUOTE + Quote(ss)) ==
            if EndsInSomeHead(edge, h) && |ss| > 1 && IsVersion(ss[0])
            then [ss[0]] + Found(true, Quote(ss[1..])) else Found(true, Quote(ss))
    decreases |h|
  {
    var b := Quote(ss);
    var s := h + QUOTE + b;
    TakeSnippetOf(edge, h, ss);
    var t := TakeSnippet(edge, s);
    if t.Some? {
      assert b == ss[0] + QUOTE + Quote(ss[1..]);
    } else if h == "" {
      assert s[0] == '"' && s[1..] == b;
    } else {
      assert s[0] == h[0] && s[1..] == h[1..] + QUOTE + b;
      FoundSegment(!IsWord(h[0]), h[1..], ss);
    }
  }

  lemma {:induction false} FoundUnquoted(edge: bool, s: string)
    requires Unquoted(s)
    ensures Found(edge, s) == []
    decreases |s|
  {
    if s != "" {
      HeadUnquoted(Plain, s);
      HeadUnquoted(Table, s);
      FoundUnquoted(!IsWord(s[0]), s[1..]);
    }
  }

  /** Scanning a text is scanning its segments. */
  lemma {:induction false} FoundIsFoundIn(ss: seq<string>)
    requires ss != [] && AllUnquoted(ss)
    ensures Found(true, Quote(ss)) == FoundIn(ss)
    decreases |ss|
  {
    if |ss| == 1 {
      FoundUnquoted(true, ss[0]);
    } else {
      FoundSegment(true, ss[0], ss[1..]);
      FoundIsFoundIn(ss[1..]);
      if IsSnippet(ss, 0) {
        assert ss[1..][1..] == ss[2..];
        FoundIsFoundIn(ss[2..]);
      }
    }
  }

  // ---- The check ----

  /** A version other than the workspace's, on a line. */
  datatype Stale = Stale(lineno: nat, found: string)

  function StaleOnLine(vs: seq<string>, lineno: nat, version: string): seq<Stale> {
    if vs == [] then []
    else (if vs[0] != version then [Stale(lineno, vs[0])] else []) + StaleOnLine(vs[1..], lineno, version)
  }

  function StaleFrom(ls: seq<string>, lineno: nat, version: string): seq<Stale> {
    if ls == [] then [] else StaleOnLine(Found(true, ls[0]), lineno, version) + StaleFrom(ls[1..], lineno + 1, version)
  }

  lemma StaleCons(v: string, vs: seq<string>, lineno: nat, version: string)
    ensures StaleOnLine([v] + vs, lineno, version) ==
            (if v != version then [Stale(lineno, v)] else []) + StaleOnLine(vs, lineno, version)
  {
    assert ([v] + vs)[1..] == vs;
  }

  /** What one step of the scan reports. */
  function Report(t: Option<(string, string)>, lineno: nat, version: string): seq<Stale> {
    if t.Some? && t.value.0 != version then [Stale(lineno, t.value.0)] else []
  }

  function LineStale(edge: bool, s: string, lineno: nat, version: string): seq<Stale> {
    StaleOnLine(Found(edge, s), lineno, version)
  }

  lemma StaleStep(edge: bool, s: string, lineno: nat, version: string)
    requires s != ""
    ensures var t := TakeSnippet(edge, s);
            LineStale(edge, s, lineno, version) == Report(t, lineno, version)
            + if t.Some? then LineStale(true, t.value.1, lineno, version)
              else LineStale(!IsWord(s[0]), s[1..], lineno, version)
  {
    var t := TakeSnippet(edge, s);
    if t.Some? {
      StaleCons(t.value.0, Found(true, t.value.1), lineno, version);
    }
  }

  /** One step of the scan of a line. */
  method ScanStep(edge: bool, s: string, lineno: nat, version: string)
    returns (report: seq<Stale>, next: string, nextEdge: bool)
    requires s != ""
    ensures |next| < |s|
    ensures LineStale(edge, s, lineno, version) == report + LineStale(nextEdge, next, lineno, version)
  {
    StaleStep(edge, s, lineno, version);
    var t := TakeSnippet(edge, s);
    report := Report(t, lineno, version);
    if t.Some? {
      TakenIsShorter(edge, s);
      next, nextEdge := t.value.1, true;
    } else {
      next, nextEdge := s[1..], !IsWord(s[0]);
    }
  }

  method CheckLine(line: string, lineno: nat, version: string) returns (errors: seq<Stale>)
    ensures errors == LineStale(true, line, lineno, version)
  {
    errors := [];
    var rest, edge := line, true;
    while rest != ""
      invariant errors + LineStale(edge, rest, lineno, version) == LineStale(true, line, lineno, version)
      decreases |rest|
    {
      var report, next, nextEdge := ScanStep(edge, rest, lineno, version);
      Regroup(errors, report, LineStale(nextEdge, next, lineno, version));
      errors, rest, edge := errors + report, next, nextEdge;
    }
  }

  /** As `IsSnippet`, on one line. */
  predicate OnLine(ss: seq<string>, m: nat) {
    m + 2 < |ss| && EndsInSomeHead(true, LineTail(ss[m])) && IsVersion(ss[m + 1])
  }

  predicate Fits(ss: seq<string>, m: nat, version: string) {
    OnLine(ss, m) ==> ss[m + 1] == version
  }

  predicate AcceptsIn(ss: seq<string>, version: string) {
    forall m :: 0 <= m < |ss| ==> Fits(ss, m, version)
  }

  /** Every snippet that lies on one line of the text has the version. */
  predicate Accepts(text: string, version: string) {
    AcceptsIn(Segments(text), version)
  }

  predicate AllAre(vs: seq<string>, version: string) {
    forall i :: 0 <= i < |vs| ==> vs[i] == version
  }

  predicate AcceptsLines(ls: seq<string>, version: string) {
    forall i :: 0 <= i < |ls| ==> AllAre(Found(true, ls[i]), version)
  }

  lemma {:induction false} StaleOnLineExactly(vs: seq<string>, lineno: nat, version: string)
    ensures StaleOnLine(vs, lineno, version) == [] <==> AllAre(vs, version)
  {
    if vs != [] {
      StaleOnLineExactly(vs[1..], lineno, version);
      assert vs == [vs[0]] + vs[1..];
      assert AllAre(vs, version) <==> vs[0] == version && AllAre(vs[1..], version);
    }
  }

  lemma {:induction false} StaleFromExactly(ls: seq<string>, lineno: nat, version: string)
    ensures StaleFrom(ls, lineno, version) == [] <==> AcceptsLines(ls, version)
  {
    if ls != [] {
      StaleOnLineExactly(Found(true, ls[0]), lineno, version);
      StaleFromExactly(ls[1..], lineno + 1, version);
      assert forall i :: 0 < i < |ls| ==> ls[i] == ls[1..][i - 1];
    }
  }

  lemma {:induction false} SegmentsUnbroken(s: string)
    requires Unbroken(s)
    ensures forall m :: 0 <= m < |Segments(s)| ==> Unbroken(Segments(s)[m])
  {
    if s != "" {
      SegmentsUnbroken(s[1..]);
    }
  }

  lemma {:induction false} LineTailWhole(s: string)
    requires Unbroken(s)
    ensures LineTail(s) == s
  {
    if s != "" {
      LineTailWhole(s[..|s| - 1]);
      assert s == s[..|s| - 1] + [s[|s| - 1]];
    }
  }

  /** On a text without line breaks, a snippet is a snippet on one line. */
  lemma LineAccepts(line: string, version: string)
    requires Unbroken(line)
    ensures AllAre(Found(true, line), version) <==> AcceptsIn(Segments(line), version)
  {
    var ss, vs := Segments(line), Found(true, line);
    QuoteSegments(line);
    FoundIsFoundIn(ss);
    SegmentsUnbroken(line);
    forall m | 0 <= m < |ss| ensures IsSnippet(ss, m) <==> OnLine(ss, m) {
      LineTailWhole(ss[m]);
    }
    forall i | 0 <= i < |vs| ensures HasVersion(ss, vs[i]) {
      assert vs[i] in vs;
      FoundExactly(ss, vs[i]);
    }
    forall m | 0 <= m < |ss| && IsSnippet(ss, m) ensures ss[m + 1] in vs {
      FoundExactly(ss, ss[m + 1]);
    }
    if AcceptsIn(ss, version) {
      forall i | 0 <= i < |vs| ensures vs[i] == version {
        assert HasVersion(ss, vs[i]);
        var m :| 0 <= m < |ss| && IsSnippet(ss, m) && ss[m + 1] == vs[i];
        assert Fits(ss, m, version);
      }
    }
  }

  /** The segments `a` of a line, a line break and the segments `b` of what follows make `ss`. */
  predicate Joined(a: seq<string>, c: char, b: seq<string>, ss: seq<string>) {
    && a != [] && b != [] && |ss| == |a| - 1 + |b|
    && (forall m :: 0 <= m < |a| - 1 ==> ss[m] == a[m])
    && ss[|a| - 1] == a[|a| - 1] + [c] + b[0]
    && (forall m :: 0 < m < |b| ==> ss[|a| - 1 + m] == b[m])
  }

  lemma SegmentsOfBreak(c: char, rest: string)
    requires IsBreak(c)
    ensures Segments([c] + rest) == [[c] + Segments(rest)[0]] + Segments(rest)[1..]
  {
    assert ([c] + rest)[1..] == rest;
  }

  lemma GlueJoins(a: seq<string>, c: char, b: seq<string>)
    requires a != [] && b != []
    ensures Joined(a, c, b, Glue(a, [[c] + b[0]] + b[1..]))
  {
    assert a[|a| - 1] + ([c] + b[0]) == a[|a| - 1] + [c] + b[0];
  }

  lemma SegmentsJoined(line: string, c: char, rest: string)
    requires IsBreak(c)
    ensures Joined(Segments(line), c, Segments(rest), Segments(line + [c] + rest))
  {
    var a, b := Segments(line), Segments(rest);
    assert line + [c] + rest == line + ([c] + rest);
    SegmentsOfPair(line, [c] + rest);
    SegmentsOfBreak(c, rest);
    GlueJoins(a, c, b);
  }

  lemma {:induction false} FitsBefore(a: seq<string>, c: char, b: seq<string>, ss: seq<string>, m: nat, version: string)
    requires Joined(a, c, b, ss) && IsBreak(c) && m < |a| - 1
    ensures OnLine(ss, m) <==> OnLine(a, m)
    ensures Fits(ss, m, version) <==> Fits(a, m, version)
  {
    if m + 1 == |a| - 1 {
      var x := ss[m + 1];
      assert x[|a[m + 1]|] == c;
      if IsVersion(x) {
        VersionLast(x);
      }
    }
  }

  lemma {:induction false} LineTailAfter(x: string, c: char, y: string)
    requires IsBreak(c)
    ensures LineTail(x + [c] + y) == LineTail(y)
  {
    var s := x + [c] + y;
    if y == "" {
      assert s[|s| - 1] == c;
    } else {
      assert s[|s| - 1] == y[|y| - 1];
      assert s[..|s| - 1] == x + [c] + y[..|y| - 1];
      LineTailAfter(x, c, y[..|y| - 1]);
    }
  }

  lemma {:induction false} FitsAfter(a: seq<string>, c: char, b: seq<string>, ss: seq<string>, m: nat, version: string)
    requires Joined(a, c, b, ss) && IsBreak(c) && m < |b|
    ensures Fits(ss, |a| - 1 + m, version) <==> Fits(b, m, version)
  {
    var k := |a| - 1 + m;
    if m == 0 {
      LineTailAfter(a[|a| - 1], c, b[0]);
    }
    assert LineTail(ss[k]) == LineTail(b[m]);
    assert m + 1 < |b| ==> ss[k + 1] == b[m + 1];
    assert OnLine(ss, k) <==> OnLine(b, m);
  }

  /** Accepting a line and what follows it is accepting the text. */
  lemma {:induction false} AcceptsAcross(line: string, c: char, rest: string, version: string)
    requires IsBreak(c)
    ensures AcceptsIn(Segments(line + [c] + rest), version) <==>
            AcceptsIn(Segments(line), version) && AcceptsIn(Segments(rest), version)
  {
    var a, b, ss := Segments(line), Segments(rest), Segments(line + [c] + rest);
    SegmentsJoined(line, c, rest);
    var n := |a| - 1;
    assert Fits(a, n, version);
    forall m | 0 <= m < n ensures Fits(ss, m, version) <==> Fits(a, m, version) {
      FitsBefore(a, c, b, ss, m, version);
    }
    forall m | 0 <= m < |b| ensures Fits(ss, n + m, version) <==> Fits(b, m, version) {
      FitsAfter(a, c, b, ss, m, version);
    }
    if AcceptsIn(a, version) && AcceptsIn(b, version) {
      forall m | 0 <= m < |ss| ensures Fits(ss, m, version) {
        assert m >= n ==> Fits(b, m - n, version);
      }
    }
  }

  lemma ShiftFirst(line: string, s: string)
    requires s != ""
    ensures line + s == line + [s[0]] + s[1..]
  {
  }

  lemma LastLineAccepts(line: string, version: string)
    ensures AcceptsLines(LinesFrom(line, ""), version) <==> AllAre(Found(true, line), version)
  {
    var ls := LinesFrom(line, "");
    assert line != "" ==> ls == [line] && ls[0] == line;
    assert line == "" ==> ls == [] && Found(true, line) == [];
  }

  lemma AcceptsLinesCons(l: string, ls: seq<string>, version: string)
    ensures AcceptsLines([l] + ls, version) <==>
            AllAre(Found(true, l), version) && AcceptsLines(ls, version)
  {
    var all := [l] + ls;
    assert forall i :: 0 <= i < |ls| ==> all[i + 1] == ls[i];
    assert all[0] == l;
    if AcceptsLines(all, version) {
      forall i | 0 <= i < |ls| ensures AllAre(Found(true, ls[i]), version) {
        assert all[i + 1] == ls[i];
      }
    }
  }

  lemma {:induction false} LinesAccept(line: string, s: string, version: string)
    requires Unbroken(line)
    ensures AcceptsLines(LinesFrom(line, s), version) <==> AcceptsIn(Segments(line + s), version)
    decreases |s|
  {
    if s == "" {
      assert line + s == line;
      LineAccepts(line, version);
      LastLineAccepts(line, version);
    } else if IsBreak(s[0]) {
      LinesAccept("", s[1..], version);
      assert "" + s[1..] == s[1..];
      LineAccepts(line, version);
      AcceptsAcross(line, s[0], s[1..], version);
      ShiftFirst(line, s);
      AcceptsLinesCons(line, LinesFrom("", s[1..]), version);
    } else {
      LinesAccept(line + [s[0]], s[1..], version);
      ShiftFirst(line, s);
    }
  }

  lemma {:induction false} AcceptsExactly(text: string, version: string)
    ensures StaleFrom(SplitLines(text), 1, version) == [] <==> Accepts(text, version)
  {
    StaleFromExactly(SplitLines(text), 1, version);
    LinesAccept("", text, version);
    assert "" + text == text;
  }

  /** The stale versions of a document, with their lines; there are none exactly when every snippet
      that lies on one line has the workspace's version. */
  method CheckVersions(text: string, version: string) returns (errors: seq<Stale>)
    ensures errors == StaleFrom(SplitLines(text), 1, version)
    ensures errors == [] <==> Accepts(text, version)
  {
    errors := [];
    var ls := SplitLines(text);
    for i := 0 to |ls|
      invariant errors + StaleFrom(ls[i..], i + 1, version) == StaleFrom(ls, 1, version)
    {
      assert ls[i..][0] == ls[i] && ls[i..][1..] == ls[i + 1..];
      var stale := CheckLine(ls[i], i + 1, version);
      Regroup(errors, stale, StaleFrom(ls[i + 1..], i + 2, version));
      errors := errors + stale;
    }
    AcceptsExactly(text, version);
  }
}
