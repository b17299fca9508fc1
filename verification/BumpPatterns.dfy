/** The patterns of the version bump (scripts/bump-version.py) and of the version check
    (scripts/check-doc-versions.py), spelled out on plain texts. */
module BumpPatterns {
  import opened TextLines
  import opened Wrappers
  import opened VersionSnippets
  import opened DocVersions
  import opened VersionBump
  import opened ManifestPins
  import opened ManifestBump

  // ---- Names and versions ----

  /** One of the three families and at least one lower-case letter, digit or hyphen. */
  predicate IsName(p: string, w: string) {
    && (p == "adk-" || p == "awp-" || p == "cargo-")
    && w != "" && forall i :: 0 <= i < |w| ==> 'a' <= w[i] <= 'z' || '0' <= w[i] <= '9' || w[i] == '-'
  }

  lemma NameIsPackage(p: string, w: string)
    requires IsName(p, w)
    ensures IsPackage(p + w)
  {
    assert (p + w)[|p|..] == w;
    assert All(NameChar, w);
  }

  lemma PackageIsName(n: string) returns (p: string, w: string)
    requires IsPackage(n)
    ensures IsName(p, w) && n == p + w
  {
    assert "cargo-" <= n ==> n[0] == 'c';
    p := if "cargo-" <= n then "cargo-" else n[..4];
    w := n[|p|..];
    assert "cargo-" <= n || n[..4] == "adk-" || n[..4] == "awp-";
    assert forall i :: 0 <= i < |w| ==> In(NameChar, w[i]);
  }

  /** A package name is exactly that. */
  lemma {:induction false} PackageMeaning(n: string)
    ensures IsPackage(n) <==> exists p, w :: IsName(p, w) && n == p + w
  {
    if IsPackage(n) {
      var p, w := PackageIsName(n);
    }
    if p, w :| IsName(p, w) && n == p + w {
      NameIsPackage(p, w);
    }
  }

  /** Among the ASCII characters, those that count as digits and as white space. */
  lemma {:induction false} AsciiClasses(c: char)
    requires c as int < 0x80
    ensures In(Digit, c) <==> '0' <= c <= '9'
    ensures In(Space, c) <==> c as int in {9, 10, 11, 12, 13, 28, 29, 30, 31, 32}
  {
  }

  /** A segment ends in the head of a snippet when some part of it, up to its end, is one and does not begin
      in the middle of a word. */
  lemma {:induction false} EndsInHeadMeaning(p: Form, edge: bool, h: string)
    ensures EndsInHead(p, edge, h) <==>
            exists i :: 0 <= i <= |h| && IsHead(p, h[i..]) &&
                        (if i == 0 then edge
                         else !('a' <= h[i - 1] <= 'z') && !('A' <= h[i - 1] <= 'Z') && !('0' <= h[i - 1] <= '9') && h[i - 1] != '_')
    decreases |h|
  {
    assert h[0..] == h;
    if h != "" {
      var t := h[1..];
      EndsInHeadMeaning(p, !IsWord(h[0]), t);
      forall i | 0 <= i <= |t| ensures h[i + 1..] == t[i..] && (i > 0 ==> h[i] == t[i - 1]) {
      }
    }
  }

  predicate IsSuffix(s: string) {
    s == "" ||
    (|s| > 1 && s[0] == '-' && forall i :: 0 < i < |s| ==>
       'a' <= s[i] <= 'z' || 'A' <= s[i] <= 'Z' || '0' <= s[i] <= '9' || s[i] == '.' || s[i] == '-')
  }

  lemma VersionThen(core: string, suffix: string)
    requires IsVersion(core) && IsSuffix(suffix)
    ensures AfterVersion(core + suffix) == Some(suffix)
  {
    VersionMeaning(core);
    var a, b, c :| IsDotted(core, a, b, c);
    var z := c + suffix;
    var y := "." + z;
    var x := "." + (b + y);
    assert core + suffix == a + x;
    SkipExactly(Digit, a, x);
    assert x[1..] == b + y;
    SkipExactly(Digit, b, y);
    assert y[1..] == z;
    SkipExactly(Digit, c, suffix);
  }

  lemma CoreOf(v: string)
    requires AfterVersion(v).Some?
    ensures |AfterVersion(v).value| <= |v|
    ensures var r := AfterVersion(v).value; IsVersion(v[..|v| - |r|]) && v == v[..|v| - |r|] + r
  {
    var r := AfterVersion(v).value;
    var a := SkipRun(Digit, v);
    var x := Skip(Digit, v);
    var b := SkipRun(Digit, x[1..]);
    var y := Skip(Digit, x[1..]);
    var c := SkipRun(Digit, y[1..]);
    var core := a + "." + b + "." + c;
    DottedParts(v, a, x, b, y, c, r);
    assert v[..|v| - |r|] == core;
    assert IsDotted(core, a, b, c);
    VersionMeaning(core);
  }

  // ---- Snippets ----

  /** No word goes on across position `i`. */
  predicate Boundary(h: string, i: nat)
    requires i <= |h|
  {
    i == 0 ||
    (!('a' <= h[i - 1] <= 'z') && !('A' <= h[i - 1] <= 'Z') && !('0' <= h[i - 1] <= '9') && h[i - 1] != '_')
  }

  /** The text before a quotation mark ends in `name =` or `name = { version =`. */
  ghost predicate OpensSnippet(h: string) {
    exists i: nat :: i <= |h| && Boundary(h, i) && (IsPlainHead(h[i..]) || IsTableHead(h[i..]))
  }

  lemma {:induction false} OpensMeaning(h: string)
    ensures EndsInSomeHead(true, h) <==> OpensSnippet(h)
  {
    EndsInHeadMeaning(Plain, true, h);
    EndsInHeadMeaning(Table, true, h);
    forall i: nat | i <= |h|
      ensures (IsPlainHead(h[i..]) <==> IsHead(Plain, h[i..])) && (IsTableHead(h[i..]) <==> IsHead(Table, h[i..]))
    {
      PlainHeadMeaning(h[i..]);
      TableHeadMeaning(h[i..]);
    }
    if OpensSnippet(h) {
      var i: nat :| i <= |h| && Boundary(h, i) && (IsPlainHead(h[i..]) || IsTableHead(h[i..]));
      assert IsHead(Plain, h[i..]) || IsHead(Table, h[i..]);
    }
  }

  ghost predicate IsThreePart(s: string) {
    exists a, b, c :: IsDotted(s, a, b, c)
  }

  /** The check reads a version between two quotation marks when it is three dotted runs of digits after such a
      text; the bump changes exactly the current version after such a text. */
  lemma {:induction false} SnippetMeaning(ss: seq<string>, m: nat, cur: string)
    ensures IsSnippet(ss, m) <==>
            m + 2 < |ss| && OpensSnippet(ss[m]) && IsThreePart(ss[m + 1])
    ensures IsAnyHit(ss, m, cur) <==> 0 < m && m + 1 < |ss| && OpensSnippet(ss[m - 1]) && ss[m] == cur
  {
    if m + 2 < |ss| {
      OpensMeaning(ss[m]);
      VersionMeaning(ss[m + 1]);
    }
    if 0 < m < |ss| {
      OpensMeaning(ss[m - 1]);
    }
  }

  lemma {:induction false} LineReportMeaning(vs: seq<string>, lineno: nat, version: string, e: Stale)
    ensures e in StaleOnLine(vs, lineno, version) <==> e.lineno == lineno && e.found in vs && e.found != version
  {
    if vs != [] {
      LineReportMeaning(vs[1..], lineno, version, e);
    }
  }

  /** What is reported: each version found on a line that is not the workspace's, with the number of the line. */
  lemma {:induction false} ReportMeaning(ls: seq<string>, first: nat, version: string, e: Stale)
    ensures e in StaleFrom(ls, first, version) <==>
            first <= e.lineno < first + |ls| && e.found in Found(true, ls[e.lineno - first]) && e.found != version
  {
    if ls != [] {
      LineReportMeaning(Found(true, ls[0]), first, version, e);
      ReportMeaning(ls[1..], first + 1, version, e);
      assert first < e.lineno < first + |ls| ==> ls[1..][e.lineno - first - 1] == ls[e.lineno - first];
    }
  }

  // ---- Versions ----

  /** The new version the script accepts: three dotted runs of digits, alone or followed by a hyphen and at
      least one ASCII letter, digit, dot or hyphen. */
  lemma {:induction false} AdmittedMeaning(v: string)
    ensures Admitted(v) <==>
            exists core, suffix :: IsVersion(core) && IsSuffix(suffix) && v == core + suffix
  {
    if Admitted(v) {
      var r := AfterVersion(v).value;
      var core := v[..|v| - |r|];
      CoreOf(v);
      assert IsVersion(core) && IsSuffix(r) && v == core + r;
    }
    if core, suffix :| IsVersion(core) && IsSuffix(suffix) && v == core + suffix {
      VersionThen(core, suffix);
    }
  }

  // ---- Pins ----

  lemma PinHeadRead(name: string)
    requires IsPackage(name)
    ensures IsPinHead(name + " = { path = ")
  {
    var k := if "cargo-" <= name then 6 else 4;
    var h := name + PATH_KEY;
    FamilyRead(h, name);
    assert h[k..] == name[k..] + PATH_KEY;
    SkipExactly(NameChar, name[k..], PATH_KEY);
  }

  /** The head of a pin is a package name that opens a table with its path. */
  lemma {:induction false} PinHeadMeaning(h: string)
    ensures IsPinHead(h) <==> exists name :: IsPackage(name) && h == name + " = { path = "
  {
    if IsPinHead(h) {
      var f := SkipFamily(h).value;
      var w := SkipRun(NameChar, f);
      PackageOf(h, f, w);
      assert h == h[..|h| - |f|] + w + " = { path = ";
    }
    if name :| IsPackage(name) && h == name + " = { path = " {
      PinHeadRead(name);
    }
  }

  /** A segment ends in the head of a pin when some part of it, up to its end, is one and begins a line. */
  lemma {:induction false} EndsInPinHeadMeaning(lineStart: bool, h: string)
    ensures EndsInPinHead(lineStart, h) <==>
            exists i :: 0 <= i <= |h| && IsPinHead(h[i..]) && (if i == 0 then lineStart else h[i - 1] == '\n')
    decreases |h|
  {
    assert h[0..] == h;
    if h != "" {
      var t := h[1..];
      EndsInPinHeadMeaning(h[0] == '\n', t);
      forall i | 0 <= i <= |t| ensures h[i + 1..] == t[i..] && (i > 0 ==> h[i] == t[i - 1]) {
      }
    }
  }

  // ---- A whole manifest ----

  function PinLine(name: string, path: string, w: string): string {
    name + " = { path = " + "\"" + (path + "\"" + (", version = " + "\"" + (w + "\"" + " }")))
  }

  /** The root manifest of a workspace at version `v` that pins one dependency at version `w`. */
  function Workspace(v: string, name: string, path: string, w: string): string {
    ("[workspace.package]" + "\n" + ("version = " + "\"")) + v +
    ("\"" + "\n" + "[workspace.dependencies]" + "\n") + PinLine(name, path, w)
  }

  function WorkspaceLines(v: string, pin: string): seq<string> {
    [PACKAGE, BareLine(v), "[workspace.dependencies]", pin]
  }

  lemma UnlinesOne(a: string, ls: seq<string>)
    requires ls != []
    ensures Unlines([a] + ls) == a + "\n" + Unlines(ls)
  {
    assert ([a] + ls)[1..] == ls;
  }

  lemma UnlinesFour(a: string, b: string, c: string, d: string)
    ensures Unlines([a, b, c, d]) == a + "\n" + (b + "\n" + (c + "\n" + d))
  {
    UnlinesOne(a, [b, c, d]);
    UnlinesOne(b, [c, d]);
    UnlinesOne(c, [d]);
    assert [a] + [b, c, d] == [a, b, c, d] && [b] + [c, d] == [b, c, d] && [c] + [d] == [c, d];
  }

  lemma TwoLines(p: string, n: string, k: string, q: string, v: string, d: string, pin: string)
    ensures (p + n + (k + q)) + v + (q + n + d + n) + pin == p + n + ((k + q + v + q) + n + (d + n + pin))
  {
    var b := k + q + v + q;
    assert (p + n + (k + q)) + v + (q + n + d + n) == p + n + b + n + d + n;
    assert p + n + b + n + d + n + pin == p + n + b + n + (d + n + pin);
    assert p + n + b + n + (d + n + pin) == p + n + (b + n + (d + n + pin));
  }

  lemma WorkspaceIsLines(v: string, name: string, path: string, w: string)
    ensures Workspace(v, name, path, w) == Unlines(WorkspaceLines(v, PinLine(name, path, w)))
  {
    var pin := PinLine(name, path, w);
    var d := "[workspace.dependencies]";
    UnlinesFour(PACKAGE, BareLine(v), d, pin);
    TwoLines(PACKAGE, "\n", VERSION, QUOTE, v, d, pin);
  }

  lemma QuotedParts(g: string, q: string, v: string, m: string, n: string, t: string)
    ensures g + q + (v + q + (m + n + q + t)) == (g + q) + v + (q + m) + (n + q + t)
  {
    assert g + q + (v + q + (m + n + q + t)) == (g + q) + v + (q + (m + n + q + t));
    assert m + n + q + t == m + (n + q + t);
  }

  lemma QuoteSeven(g: string, v: string, h: string, path: string, k: string, w: string, e: string)
    ensures Quote([g, v, h, path, k, w, e]) ==
            g + QUOTE + (v + QUOTE + (h + QUOTE + (path + QUOTE + (k + QUOTE + (w + QUOTE + e)))))
  {
    QuoteTwo(g, v, [h, path, k, w, e]);
    QuoteTwo(h, path, [k, w, e]);
    QuoteTwo(k, w, [e]);
    assert [g, v] + [h, path, k, w, e] == [g, v, h, path, k, w, e];
    assert [h, path] + [k, w, e] == [h, path, k, w, e] && [k, w] + [e] == [k, w, e];
  }

  lemma WorkspaceQuoted(v: string, name: string, path: string, w: string)
    ensures Workspace(v, name, path, w) ==
            Quote([PACKAGE + "\n" + VERSION, v, "\n" + "[workspace.dependencies]" + "\n" + (name + PATH_KEY), path, PIN_KEY, w, " }"])
  {
    var d := "[workspace.dependencies]";
    var m := "\n" + d + "\n";
    var g := PACKAGE + "\n" + VERSION;
    QuoteSeven(g, v, m + (name + PATH_KEY), path, PIN_KEY, w, " }");
    var tail := path + QUOTE + (PIN_KEY + QUOTE + (w + QUOTE + " }"));
    QuotedParts(g, QUOTE, v, m, name + PATH_KEY, tail);
    assert PACKAGE + "\n" + (VERSION + QUOTE) == g + QUOTE;
    assert QUOTE + "\n" + d + "\n" == QUOTE + m;
  }

  lemma HeadIsUnquoted(name: string)
    requires Unquoted(name)
    ensures Unquoted("\n" + "[workspace.dependencies]" + "\n" + (name + PATH_KEY))
    ensures Unquoted(PACKAGE + "\n" + VERSION) && Unquoted(PIN_KEY) && Unquoted(" }")
  {
  }

  lemma WorkspaceSegments(v: string, name: string, path: string, w: string)
    requires Unquoted(v) && Unquoted(name) && Unquoted(path) && Unquoted(w)
    ensures Segments(Workspace(v, name, path, w)) ==
            [PACKAGE + "\n" + VERSION, v, "\n" + "[workspace.dependencies]" + "\n" + (name + PATH_KEY), path, PIN_KEY, w, " }"]
  {
    var g, h := PACKAGE + "\n" + VERSION, "\n" + "[workspace.dependencies]" + "\n" + (name + PATH_KEY);
    WorkspaceQuoted(v, name, path, w);
    HeadIsUnquoted(name);
    var ss := [g, v, h, path, PIN_KEY, w, " }"];
    SegmentsQuote(ss);
  }

  lemma JoinedUnbroken(a: string, b: string)
    requires Unbroken(a) && Unbroken(b)
    ensures Unbroken(a + b)
  {
  }

  lemma PackageUnbroken(name: string)
    requires IsPackage(name)
    ensures Unquoted(name) && Unbroken(name) && name[0] != 'v' && name[0] != '['
  {
    var p, w := PackageIsName(name);
    assert Unbroken(w) && Unquoted(w);
    JoinedUnbroken(p, w);
  }

  lemma PinLineUnbroken(name: string, path: string, w: string)
    requires Unbroken(name) && Unbroken(path) && Unbroken(w)
    ensures Unbroken(PinLine(name, path, w))
  {
    var e := w + "\"" + " }";
    JoinedUnbroken(w, "\"");
    JoinedUnbroken(w + "\"", " }");
    JoinedUnbroken(", version = " + "\"", e);
    JoinedUnbroken(path, "\"");
    JoinedUnbroken(path + "\"", ", version = " + "\"" + e);
    JoinedUnbroken(name, " = { path = ");
    JoinedUnbroken(name + " = { path = ", "\"");
    JoinedUnbroken(name + " = { path = " + "\"", path + "\"" + (", version = " + "\"" + e));
  }

  lemma LinesCutTwice(ls: seq<string>)
    requires ls != [] && ls[|ls| - 1] != "" && forall i :: 0 <= i < |ls| ==> Unbroken(ls[i])
    ensures SplitLines(Unlines(ls)) == ls && Split(Unlines(ls)) == ls
  {
    LinesOfUnlines(ls);
    forall i | 0 <= i < |ls| ensures OneLine(ls[i]) {
      UnbrokenIsOneLine(ls[i]);
    }
    SplitUnlines(ls);
  }

  lemma HeadersUnbroken()
    ensures Unbroken(PACKAGE) && Unbroken("[workspace.dependencies]")
  {
  }

  lemma FourUnbroken(a: string, b: string, c: string, d: string)
    requires Unbroken(a) && Unbroken(b) && Unbroken(c) && Unbroken(d)
    ensures var ls := [a, b, c, d]; forall i :: 0 <= i < |ls| ==> Unbroken(ls[i])
  {
  }

  lemma WorkspaceUnbroken(v: string, name: string, path: string, w: string)
    requires Admitted(v) && IsPackage(name) && Unbroken(path) && Unbroken(w)
    ensures var ls := WorkspaceLines(v, PinLine(name, path, w)); forall i :: 0 <= i < |ls| ==> Unbroken(ls[i])
  {
    AdmittedUnbroken(v);
    BareUnbroken(v);
    PackageUnbroken(name);
    PinLineUnbroken(name, path, w);
    HeadersUnbroken();
    FourUnbroken(PACKAGE, BareLine(v), "[workspace.dependencies]", PinLine(name, path, w));
  }

  lemma WorkspaceCut(v: string, name: string, path: string, w: string)
    requires Admitted(v) && IsPackage(name) && Unbroken(path) && Unbroken(w)
    ensures var ls := WorkspaceLines(v, PinLine(name, path, w));
            var text := Workspace(v, name, path, w);
            SplitLines(text) == ls && Split(text) == ls
  {
    var ls := WorkspaceLines(v, PinLine(name, path, w));
    WorkspaceUnbroken(v, name, path, w);
    WorkspaceIsLines(v, name, path, w);
    LinesCutTwice(ls);
  }

  lemma OnlySecond(x: string, l: string, y: string, z: string)
    requires x != l && y != l && z != l
    ensures CountOf([x, l, y, z], l) == 1 && IndexOf([x, l, y, z], l) == 1
  {
    assert [x, l, y, z][1..] == [l, y, z] && [l, y, z][1..] == [y, z] && [y, z][1..] == [z];
    assert CountOf([z], l) == 0;
    assert CountOf([y, z], l) == 0;
    assert CountOf([l, y, z], l) == 1 && IndexOf([l, y, z], l) == 0;
  }

  lemma ShortUnpinned(ss: seq<string>, cur: string, newer: string)
    requires |ss| <= 4
    ensures Pinned(false, ss, cur, newer) == ss
  {
    if ss != [] {
      ShortUnpinned(ss[1..], cur, newer);
    }
  }

  lemma {:induction false} LastPinned(g: string, v: string, h: string, path: string, w: string, cur: string, newer: string)
    requires EndsInPinHead(false, h) && path != "" && h != PIN_KEY && cur != PIN_KEY
    ensures Pinned(true, [g, v, h, path, PIN_KEY, w, " }"], cur, newer) ==
            [g, v, h, path, PIN_KEY, if w == cur then newer else w, " }"]
  {
    var ss := [g, v, h, path, PIN_KEY, w, " }"];
    assert !PinFollows(ss[1..], cur);
    assert ss[1..][0] == v && ss[1..][1..] == ss[2..];
    assert !PinFollows(ss[2..], cur);
    assert ss[2..][0] == h && ss[2..][1..] == ss[3..];
    assert PinFollows(ss[3..], cur) <==> w == cur;
    ShortUnpinned(ss[3..], cur, newer);
    ShortUnpinned([" }"], cur, newer);
    assert ss[2..][4..] == [" }"];
    assert Pinned(false, ss[2..], cur, newer) == [h, path, PIN_KEY, if w == cur then newer else w, " }"];
    assert Pinned(false, ss[1..], cur, newer) == [v] + Pinned(false, ss[2..], cur, newer);
  }

  lemma WorkspacePins(v: string, name: string, path: string, w: string, cur: string, newer: string)
    requires Admitted(v) && IsPackage(name) && path != "" && Unquoted(path) && Unquoted(w) && Admitted(cur)
    ensures WithPins(Workspace(v, name, path, w), cur, newer) == Workspace(v, name, path, if w == cur then newer else w)
  {
    AdmittedUnbroken(v);
    PackageUnbroken(name);
    AdmittedIsNoPinHead(false, cur);
    var m := "\n" + "[workspace.dependencies]" + "\n";
    var h := m + (name + PATH_KEY);
    WorkspaceSegments(v, name, path, w);
    PinHeadRead(name);
    assert h[|m|..] == name + PATH_KEY && h[|m| - 1] == '\n' && h[0] == '\n';
    EndsInPinHeadMeaning(false, h);
    LastPinned(PACKAGE + "\n" + VERSION, v, h, path, w, cur, newer);
    WorkspaceQuoted(v, name, path, if w == cur then newer else w);
  }

  lemma WorkspaceRead(cur: string, name: string, path: string, w: string)
    requires Admitted(cur) && IsPackage(name) && Unbroken(path) && Unbroken(w)
    ensures ReadVersion(Workspace(cur, name, path, w)) == Some(Reading(1, cur))
  {
    var d, pin := "[workspace.dependencies]", PinLine(name, path, w);
    WorkspaceCut(cur, name, path, w);
    AdmittedUnbroken(cur);
    BareKind(cur);
    PackageKind();
    ReadSecond(PACKAGE, BareLine(cur), [d, pin], cur);
    assert WorkspaceLines(cur, pin) == [PACKAGE, BareLine(cur)] + [d, pin];
  }

  lemma WorkspaceLine(cur: string, newer: string, name: string, path: string, w: string)
    requires IsPackage(name)
    ensures var ls := WorkspaceLines(cur, PinLine(name, path, w));
            && CountOf(ls, BareLine(cur)) == 1 && IndexOf(ls, BareLine(cur)) == 1
            && ls[1 := BareLine(newer)] == WorkspaceLines(newer, PinLine(name, path, w))
  {
    var pin, l := PinLine(name, path, w), BareLine(cur);
    PackageUnbroken(name);
    assert l[0] == 'v' && PACKAGE[0] == '[' && "[workspace.dependencies]"[0] == '[' && pin[0] == name[0];
    OnlySecond(PACKAGE, l, "[workspace.dependencies]", pin);
  }

  /** Bumping such a manifest changes its version, and the pin with it when the pin is at the same version, and
      nothing else. */
  lemma {:induction false} WorkspaceIsBumped(
      name: string, path: string, w: string, cur: string, newer: string, r: Outcome)
    requires Admitted(cur) && Admitted(newer) && cur != newer
    requires IsPackage(name) && path != "" && Unquoted(path) && Unbroken(path) && Unquoted(w) && Unbroken(w)
    requires Bumps(Workspace(cur, name, path, w), newer, r)
    ensures ReadVersion(Workspace(cur, name, path, w)) == Some(Reading(1, cur))
    ensures r == Written(Workspace(newer, name, path, if w == cur then newer else w))
  {
    var pin := PinLine(name, path, w);
    WorkspaceCut(cur, name, path, w);
    WorkspaceRead(cur, name, path, w);
    WorkspaceLine(cur, newer, name, path, w);
    WorkspaceIsLines(newer, name, path, w);
    WorkspacePins(newer, name, path, w, cur, newer);
  }
}
