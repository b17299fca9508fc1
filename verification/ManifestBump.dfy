/** The root manifest in a version bump (scripts/bump-version.py): reading the workspace's version,
    replacing the bare version line and the pins of internal dependencies. */
module ManifestBump {
  import opened TextLines
  import opened Wrappers
  import opened VersionSnippets
  import opened DocVersions
  import opened VersionBump
  import opened ManifestPins

  const PACKAGE := "[workspace.package]"
  const VERSION := "version = "

  // ---- Reading the version ----

  datatype LineKind = Header(package: bool) | VersionLine(version: string) | Other

  /** What a line of the manifest is to the scanner. */
  function Kind(line: string): LineKind {
    var s := Strip(line);
    var ss := Segments(s);
    if "[" <= s then Header(s == PACKAGE)
    else if |ss| > 2 && ss[0] == VERSION && ss[1] != "" then VersionLine(ss[1])
    else Other
  }

  /** Where the version is read, and the version. */
  datatype Reading = Reading(line: nat, version: string)

  function Later(r: Option<Reading>, n: nat): Option<Reading> {
    if r.None? then None else Some(Reading(r.value.line + n, r.value.version))
  }

  /** Only a header moves the scanner into or out of the package's section. */
  function FlagAfter(line: string, inPackage: bool): bool {
    if Kind(line).Header? then Kind(line).package else inPackage
  }

  function ReadFrom(ls: seq<string>, inPackage: bool): Option<Reading> {
    if ls == [] then None
    else if inPackage && Kind(ls[0]).VersionLine? then Some(Reading(0, Kind(ls[0]).version))
    else Later(ReadFrom(ls[1..], FlagAfter(ls[0], inPackage)), 1)
  }

  function ReadVersion(text: string): Option<Reading> {
    ReadFrom(SplitLines(text), false)
  }

  /** The scanner's flag after some lines. */
  function PackageAfter(ls: seq<string>, inPackage: bool): bool {
    if ls == [] then inPackage
    else PackageAfter(ls[1..], FlagAfter(ls[0], inPackage))
  }

  lemma LaterTwice(r: Option<Reading>, m: nat, n: nat)
    ensures Later(Later(r, m), n) == Later(r, m + n)
  {
  }

  method CurrentVersion(text: string) returns (version: Option<string>)
    ensures version == if ReadVersion(text).Some? then Some(ReadVersion(text).value.version) else None
  {
    var ls := SplitLines(text);
    var inPackage := false;
    for i := 0 to |ls|
      invariant ReadVersion(text) == Later(ReadFrom(ls[i..], inPackage), i)
    {
      assert ls[i..][0] == ls[i] && ls[i..][1..] == ls[i + 1..];
      LaterTwice(ReadFrom(ls[i + 1..], FlagAfter(ls[i], inPackage)), 1, i);
      match Kind(ls[i]) {
        case Header(package) => inPackage := package;
        case VersionLine(v) =>
          if inPackage {
            return Some(v);
          }
        case Other =>
      }
    }
    version := None;
  }

  // ---- The bump ----

  function BareLine(version: string): string {
    VERSION + QUOTE + version + QUOTE
  }

  function CountOf(ls: seq<string>, l: string): nat {
    if ls == [] then 0 else (if ls[0] == l then 1 else 0) + CountOf(ls[1..], l)
  }

  function Replaced(ls: seq<string>, l: string, m: string): (r: seq<string>)
    ensures |r| == |ls|
  {
    if ls == [] then [] else [if ls[0] == l then m else ls[0]] + Replaced(ls[1..], l, m)
  }

  datatype Outcome =
    | BadVersion
    | NoVersion
    | AlreadyThere
    | NotOneLine
    | Written(manifest: string)

  function WithPins(text: string, cur: string, newer: string): string {
    Quote(Pinned(true, Segments(text), cur, newer))
  }

  // ---- The scanner on parts of a text ----

  lemma {:induction false} ReadFromPair(a: seq<string>, b: seq<string>, inPackage: bool)
    ensures ReadFrom(a + b, inPackage) ==
            if ReadFrom(a, inPackage).Some? then ReadFrom(a, inPackage)
            else Later(ReadFrom(b, PackageAfter(a, inPackage)), |a|)
  {
    if a == [] {
      assert a + b == b;
    } else {
      assert (a + b)[0] == a[0] && (a + b)[1..] == a[1..] + b;
      var next := FlagAfter(a[0], inPackage);
      ReadFromPair(a[1..], b, next);
      LaterTwice(ReadFrom(b, PackageAfter(a, inPackage)), |a| - 1, 1);
    }
  }

  lemma {:induction false} ReadFromSame(a: seq<string>, b: seq<string>, inPackage: bool)
    requires |a| == |b| && forall i :: 0 <= i < |a| ==> Kind(a[i]) == Kind(b[i])
    ensures ReadFrom(a, inPackage) == ReadFrom(b, inPackage)
  {
    if a != [] {
      assert Kind(a[0]) == Kind(b[0]);
      ReadFromSame(a[1..], b[1..], FlagAfter(a[0], inPackage));
    }
  }

  lemma {:induction false} ReadFromBounds(ls: seq<string>, inPackage: bool)
    requires ReadFrom(ls, inPackage).Some?
    ensures var r := ReadFrom(ls, inPackage).value;
            r.line < |ls| && Kind(ls[r.line]) == VersionLine(r.version)
  {
    if !(inPackage && Kind(ls[0]).VersionLine?) {
      ReadFromBounds(ls[1..], FlagAfter(ls[0], inPackage));
    }
  }

  // ---- Lines of parts of a text ----

  predicate EndsLine(s: string) {
    s == "" || IsBreak(s[|s| - 1])
  }

  lemma {:induction false} LinesAfter(line: string, a: string, s: string)
    requires EndsLine(a) && (a == "" ==> line == "")
    ensures LinesFrom(line, a + s) == LinesFrom(line, a) + SplitLines(s)
    decreases |a|
  {
    if a == "" {
      assert a + s == s;
    } else {
      assert (a + s)[0] == a[0] && (a + s)[1..] == a[1..] + s;
      if IsBreak(a[0]) {
        LinesAfter("", a[1..], s);
      } else {
        LinesAfter(line + [a[0]], a[1..], s);
      }
    }
  }

  /** The rest of a line, up to the first line break. */
  function LineHead(s: string): string {
    if s == "" || IsBreak(s[0]) then "" else [s[0]] + LineHead(s[1..])
  }

  /** The lines after the first line break. */
  function OtherLines(s: string): seq<string> {
    if s == "" then [] else if IsBreak(s[0]) then SplitLines(s[1..]) else OtherLines(s[1..])
  }

  lemma {:induction false} LinesOnward(line: string, s: string)
    requires line != ""
    ensures LinesFrom(line, s) == [line + LineHead(s)] + OtherLines(s)
    decreases |s|
  {
    if s == "" || IsBreak(s[0]) {
      assert line + "" == line;
    } else {
      LinesOnward(line + [s[0]], s[1..]);
      assert line + [s[0]] + LineHead(s[1..]) == line + ([s[0]] + LineHead(s[1..]));
    }
  }

  // ---- Replacing the version of a pin ----

  const PIN := QUOTE + PIN_KEY + QUOTE

  lemma {:induction false} LstripRun(s: string) returns (w: string)
    ensures Blank(w) && s == w + Lstrip(s)
    ensures Lstrip(s) == "" || !IsSpace(Lstrip(s)[0])
  {
    if s != "" && IsSpace(s[0]) {
      var v := LstripRun(s[1..]);
      w := [s[0]] + v;
      assert s == [s[0]] + s[1..];
    } else {
      w := "";
    }
  }

  lemma {:induction false} LstripBlank(w: string, d: string)
    requires Blank(w) && d != "" && !IsSpace(d[0])
    ensures Lstrip(w + d) == d
  {
    if w == "" {
      assert w + d == d;
    } else {
      assert (w + d)[0] == w[0] && (w + d)[1..] == w[1..] + d;
      LstripBlank(w[1..], d);
    }
  }

  lemma BlankUnquoted(w: string)
    requires Blank(w)
    ensures Unquoted(w)
  {
  }

  lemma {:induction false} StartOf(c: string) returns (w: string, d: string)
    requires c != "" && c[|c| - 1] == '"' && |Segments(c)| > 2
    ensures Blank(w) && c == w + d && d != "" && !IsSpace(d[0]) && d[|d| - 1] == '"' && |Segments(d)| > 2
  {
    w := LstripRun(c);
    d := Lstrip(c);
    BlankUnquoted(w);
    assert '"' in c;
    assert d == "" ==> c == w;
    SegmentsOfPair(w, d);
    SegmentsUnquoted(w);
  }

  lemma StripStart(w: string, d: string, x: string) returns (tail: string)
    requires Blank(w) && d != "" && !IsSpace(d[0]) && d[|d| - 1] == '"'
    ensures Strip(w + (d + x)) == d + tail
  {
    LstripBlank(w, d + x);
    RstripKeeps(d + x, d);
    tail := Rstrip(d + x)[|d|..];
  }

  lemma {:induction false} KindOfStart(w: string, d: string, x: string)
    requires Blank(w) && d != "" && !IsSpace(d[0]) && d[|d| - 1] == '"' && |Segments(d)| > 2
    ensures Kind(w + (d + x)) ==
            if d[0] == '[' then Header(false)
            else if Segments(d)[0] == VERSION && Segments(d)[1] != "" then VersionLine(Segments(d)[1])
            else Other
  {
    var tail := StripStart(w, d, x);
    var s := d + tail;
    SegmentsOfPair(d, tail);
    assert s[0] == d[0] && s[|d| - 1] == '"';
    assert forall i :: 0 <= i < |PACKAGE| ==> PACKAGE[i] != '"';
    assert '"' in s && Unquoted(PACKAGE);
  }

  /** A line is the same to the scanner whatever follows its first two quotation marks. */
  lemma {:induction false} KindByStart(c: string, x: string, y: string)
    requires c != "" && c[|c| - 1] == '"' && |Segments(c)| > 2
    ensures Kind(c + x) == Kind(c + y)
  {
    var w, d := StartOf(c);
    KindOfStart(w, d, x);
    KindOfStart(w, d, y);
    Regroup(w, d, x);
    Regroup(w, d, y);
  }

  lemma {:induction false} LineTailUnbroken(s: string)
    ensures Unbroken(LineTail(s))
  {
    if s != "" && !IsBreak(s[|s| - 1]) {
      LineTailUnbroken(s[..|s| - 1]);
    }
  }

  lemma {:induction false} SegmentsThree(x: string, y: string, z: string)
    requires Unquoted(x) && Unquoted(y) && Unquoted(z)
    ensures Segments(x + QUOTE + (y + QUOTE + z)) == [x, y, z]
  {
    QuoteTwo(x, y, [z]);
    assert [x, y] + [z] == [x, y, z];
    SegmentsQuote([x, y, z]);
  }

  lemma PinParts()
    ensures Segments(PIN) == ["", PIN_KEY, ""] && Unbroken(PIN)
  {
    SegmentsThree("", PIN_KEY, "");
    assert PIN == "" + QUOTE + (PIN_KEY + QUOTE + "");
  }

  lemma PinSegments(t: string)
    requires Unbroken(t)
    ensures |Segments(t + PIN)| > 2 && Unbroken(t + PIN)
  {
    PinParts();
    SegmentsOfPair(t, PIN);
    forall i | 0 <= i < |t + PIN| ensures !IsBreak((t + PIN)[i]) {
      assert (t + PIN)[i] == if i < |t| then t[i] else PIN[i - |t|];
    }
  }

  /** The lines of a text around an unbroken part of it. */
  lemma LinesAround(a: string, x: string, b: string)
    requires EndsLine(a) && Unbroken(x) && x != ""
    ensures SplitLines(a + x + b) == SplitLines(a) + [x + LineHead(b)] + OtherLines(b)
  {
    assert a + x + b == a + (x + b);
    LinesAfter("", a, x + b);
    LinesOfPair("", x, b);
    assert "" + x == x;
    LinesOnward(x, b);
  }

  lemma ReadReplaced(a: seq<string>, l: string, m: string, b: seq<string>)
    requires Kind(l) == Kind(m)
    ensures ReadFrom(a + [l] + b, false) == ReadFrom(a + [m] + b, false)
  {
    ReadFromSame(a + [l] + b, a + [m] + b, false);
  }

  lemma PinLines(a0: string, t: string, y: string, b: string)
    requires EndsLine(a0) && Unbroken(t) && Unbroken(y)
    ensures SplitLines(a0 + t + PIN + y + b) == SplitLines(a0) + [t + PIN + (y + LineHead(b))] + OtherLines(b)
  {
    PinSegments(t);
    var x := t + PIN + y;
    forall i | 0 <= i < |x| ensures !IsBreak(x[i]) {
      assert x[i] == if i < |t + PIN| then (t + PIN)[i] else y[i - |t + PIN|];
    }
    assert a0 + t + PIN + y + b == a0 + x + b;
    LinesAround(a0, x, b);
    assert x + LineHead(b) == t + PIN + (y + LineHead(b));
  }

  /** The scanner reads the same, whatever version a pin has. */
  lemma OnePin(a: string, y: string, z: string, b: string)
    requires Unbroken(y) && Unbroken(z)
    ensures ReadVersion(a + PIN + y + b) == ReadVersion(a + PIN + z + b)
  {
    var t := LineTail(a);
    LineTailCuts(a);
    LineTailUnbroken(a);
    var a0 := a[..|a| - |t|];
    var c := t + PIN;
    PinSegments(t);
    PinLines(a0, t, y, b);
    PinLines(a0, t, z, b);
    assert a == a0 + t;
    KindByStart(c, y + LineHead(b), z + LineHead(b));
    ReadReplaced(SplitLines(a0), c + (y + LineHead(b)), c + (z + LineHead(b)), OtherLines(b));
  }

  lemma HeadText(pre: string, s: string, ss: seq<string>)
    requires ss != []
    ensures pre + Quote([s] + ss) == pre + s + QUOTE + Quote(ss)
  {
    QuoteOne(s, ss);
    Regroup(pre, s + QUOTE, Quote(ss));
    Regroup(pre, s, QUOTE);
  }

  lemma PinAround(pre: string, ss: seq<string>, v: string)
    requires |ss| >= 5 && ss[2] == PIN_KEY && ss[3] == v
    ensures pre + Quote(ss) == pre + ss[0] + QUOTE + ss[1] + PIN + v + (QUOTE + Quote(ss[4..]))
  {
    var q := Quote(ss[4..]);
    assert ss[1..][1..] == ss[2..] && ss[2..][1..] == ss[3..] && ss[3..][1..] == ss[4..];
    assert Quote(ss[3..]) == v + QUOTE + q;
    assert Quote(ss[2..]) == ss[2] + QUOTE + Quote(ss[3..]);
    assert Quote(ss[1..]) == ss[1] + QUOTE + Quote(ss[2..]);
    assert Quote(ss) == ss[0] + QUOTE + Quote(ss[1..]);
  }

  /** Rewriting pins does not disturb the scanner. */
  lemma {:induction false} PinnedReads(pre: string, lineStart: bool, ss: seq<string>, cur: string, newer: string)
    requires ss != [] && Unbroken(cur) && Unbroken(newer)
    ensures ReadVersion(pre + Quote(Pinned(lineStart, ss, cur, newer))) == ReadVersion(pre + Quote(ss))
    decreases |ss|
  {
    if |ss| > 1 {
      var r := Pinned(lineStart, ss, cur, newer);
      if EndsInPinHead(lineStart, ss[0]) && PinFollows(ss[1..], cur) {
        var a := pre + ss[0] + QUOTE + ss[1];
        var p := Pinned(false, ss[4..], cur, newer);
        PinAround(pre, ss, cur);
        assert r[4..] == p;
        PinAround(pre, r, newer);
        OnePin(a, cur, newer, QUOTE + Quote(ss[4..]));
        var done := a + PIN + newer + QUOTE;
        PinnedReads(done, false, ss[4..], cur, newer);
        Regroup(a + PIN + newer, QUOTE, Quote(p));
        Regroup(a + PIN + newer, QUOTE, Quote(ss[4..]));
      } else {
        var p := Pinned(false, ss[1..], cur, newer);
        PinnedReads(pre + ss[0] + QUOTE, false, ss[1..], cur, newer);
        HeadText(pre, ss[0], p);
        HeadText(pre, ss[0], ss[1..]);
        assert ss == [ss[0]] + ss[1..];
      }
    }
  }

  // ---- Replacing the bare version line ----

  /** The text before a line. */
  function Before(ls: seq<string>, k: nat): string
    requires k <= |ls|
  {
    if k == 0 then "" else Unlines(ls[..k]) + "\n"
  }

  function After(ls: seq<string>, k: nat): string
    requires k < |ls|
  {
    if k + 1 == |ls| then "" else "\n" + Unlines(ls[k + 1..])
  }

  lemma TextAround(ls: seq<string>, k: nat)
    requires k < |ls|
    ensures Unlines(ls) == Before(ls, k) + ls[k] + After(ls, k)
    ensures EndsLine(Before(ls, k)) && LineHead(After(ls, k)) == ""
  {
    var from := ls[k..];
    assert from[0] == ls[k] && from[1..] == ls[k + 1..];
    assert Unlines(from) == ls[k] + After(ls, k);
    if k > 0 {
      JoinAppend(ls[..k], from, "\n");
      assert ls[..k] + from == ls;
      Regroup(Before(ls, k), ls[k], After(ls, k));
    } else {
      assert from == ls;
      assert "" + ls[k] + After(ls, k) == ls[k] + After(ls, k);
    }
  }

  function IndexOf(ls: seq<string>, l: string): (k: nat)
    requires CountOf(ls, l) > 0
    ensures k < |ls| && ls[k] == l
  {
    if ls[0] == l then 0 else 1 + IndexOf(ls[1..], l)
  }

  lemma {:induction false} NoneReplaced(ls: seq<string>, l: string, m: string)
    requires CountOf(ls, l) == 0
    ensures Replaced(ls, l, m) == ls
  {
    if ls != [] {
      NoneReplaced(ls[1..], l, m);
    }
  }

  /** Replacing the only line that equals `l`. */
  lemma {:induction false} OneReplaced(ls: seq<string>, l: string, m: string)
    requires CountOf(ls, l) == 1
    ensures Replaced(ls, l, m) == ls[IndexOf(ls, l) := m]
  {
    if ls[0] == l {
      NoneReplaced(ls[1..], l, m);
    } else {
      OneReplaced(ls[1..], l, m);
    }
  }

  lemma BareStripped(v: string)
    ensures Strip(BareLine(v)) == BareLine(v)
  {
    var l := BareLine(v);
    assert l[0] == 'v';
    LstripBlank("", l);
    assert "" + l == l;
    assert l[|l| - 1] == '"';
  }

  lemma BareKind(v: string)
    requires Unquoted(v) && v != ""
    ensures Kind(BareLine(v)) == VersionLine(v)
  {
    var l := BareLine(v);
    BareStripped(v);
    SegmentsThree(VERSION, v, "");
    assert l == VERSION + QUOTE + (v + QUOTE + "");
    assert l[0] == 'v';
  }

  lemma BareUnbroken(v: string)
    requires Unbroken(v)
    ensures Unbroken(BareLine(v))
  {
    var l := BareLine(v);
    forall i | 0 <= i < |l| ensures !IsBreak(l[i]) {
      assert l[i] == if i < 10 then VERSION[i] else if i == 10 || i == 11 + |v| then '"' else v[i - 11];
    }
  }

  lemma BareAround(ls: seq<string>, k: nat, v: string)
    requires k < |ls| && ls[k] == BareLine(v) && Unbroken(v)
    ensures SplitLines(Unlines(ls)) == SplitLines(Before(ls, k)) + ([BareLine(v)] + OtherLines(After(ls, k)))
  {
    TextAround(ls, k);
    var l := BareLine(v);
    BareUnbroken(v);
    LinesAround(Before(ls, k), l, After(ls, k));
    assert l + LineHead(After(ls, k)) == l;
    Regroup(SplitLines(Before(ls, k)), [l], OtherLines(After(ls, k)));
  }

  lemma {:induction false} ReadAroundLine(a: seq<string>, l: string, rest: seq<string>, v: string)
    requires Kind(l) == VersionLine(v)
    ensures ReadFrom(a + ([l] + rest), false) ==
            if ReadFrom(a, false).Some? then ReadFrom(a, false)
            else if PackageAfter(a, false) then Some(Reading(|a|, v))
            else Later(ReadFrom(rest, false), |a| + 1)
  {
    ReadFromPair(a, [l] + rest, false);
    assert ([l] + rest)[1..] == rest;
    LaterTwice(ReadFrom(rest, false), 1, |a|);
  }

  /** The scanner on the lines around a bare version line. */
  lemma ReadAround(ls: seq<string>, k: nat, v: string)
    requires k < |ls| && ls[k] == BareLine(v) && v != "" && Unquoted(v) && Unbroken(v)
    ensures var a := SplitLines(Before(ls, k));
            ReadVersion(Unlines(ls)) ==
            if ReadFrom(a, false).Some? then ReadFrom(a, false)
            else if PackageAfter(a, false) then Some(Reading(|a|, v))
            else Later(ReadFrom(OtherLines(After(ls, k)), false), |a| + 1)
  {
    BareAround(ls, k, v);
    BareKind(v);
    ReadAroundLine(SplitLines(Before(ls, k)), BareLine(v), OtherLines(After(ls, k)), v);
  }

  // ---- Reading again ----

  /** The scanner reads the line that the bump replaces. */
  ghost predicate ReadsReplacedLine(text: string) {
    ReadVersion(text).Some? &&
    var r := ReadVersion(text).value;
    var ls := Split(text);
    CountOf(ls, BareLine(r.version)) == 1 &&
    r.line == |SplitLines(Before(ls, IndexOf(ls, BareLine(r.version))))|
  }

  lemma {:induction false} LinesUnbroken(line: string, s: string)
    requires Unbroken(line)
    ensures forall i :: 0 <= i < |LinesFrom(line, s)| ==> Unbroken(LinesFrom(line, s)[i])
    decreases |s|
  {
    if s != "" {
      if IsBreak(s[0]) {
        LinesUnbroken("", s[1..]);
      } else {
        LinesUnbroken(line + [s[0]], s[1..]);
      }
    }
  }

  lemma StripUnbroken(s: string)
    requires Unbroken(s)
    ensures Unbroken(Strip(s))
  {
    var w := LstripRun(s);
    var d := Lstrip(s);
    forall i | 0 <= i < |d| ensures !IsBreak(d[i]) {
      assert d[i] == s[|w| + i];
    }
  }

  /** A version read from a manifest is part of one line, with no quotation mark. */
  lemma ReadIsPlain(text: string)
    requires ReadVersion(text).Some?
    ensures var v := ReadVersion(text).value.version; v != "" && Unquoted(v) && Unbroken(v)
  {
    var ls, r := SplitLines(text), ReadVersion(text).value;
    ReadFromBounds(ls, false);
    LinesUnbroken("", text);
    StripUnbroken(ls[r.line]);
    SegmentsUnbroken(Strip(ls[r.line]));
  }

  lemma AdmittedUnbroken(v: string)
    requires Admitted(v)
    ensures v != "" && Unquoted(v) && Unbroken(v)
  {
    AdmittedIsNoHead(v);
    forall i | 0 <= i < |v| ensures !IsBreak(v[i]) {
      VersionCharIsNoSpace(v[i]);
    }
  }

  lemma AroundUpdated(ls: seq<string>, k: nat, l: string)
    requires k < |ls|
    ensures Before(ls[k := l], k) == Before(ls, k) && After(ls[k := l], k) == After(ls, k)
  {
    assert ls[k := l][..k] == ls[..k] && ls[k := l][k + 1..] == ls[k + 1..];
  }

  /** What the bump writes, read again, before the pins: the version line and everything around it. */
  lemma BareReread(ls: seq<string>, k: nat, cur: string, newer: string)
    requires k < |ls| && ls[k] == BareLine(cur) && cur != newer && cur != "" && Unquoted(cur) && Unbroken(cur)
    requires Admitted(newer)
    requires ReadVersion(Unlines(ls)).Some? && ReadVersion(Unlines(ls)).value.version == cur
    ensures var r := ReadVersion(Unlines(ls)).value;
            ReadVersion(Unlines(ls[k := BareLine(newer)])) ==
            Some(Reading(r.line, if r.line == |SplitLines(Before(ls, k))| then newer else cur))
  {
    AdmittedUnbroken(newer);
    var ms := ls[k := BareLine(newer)];
    AroundUpdated(ls, k, BareLine(newer));
    ReadAround(ls, k, cur);
    ReadAround(ms, k, newer);
    var a := SplitLines(Before(ls, k));
    if ReadFrom(a, false).Some? {
      ReadFromBounds(a, false);
    }
  }

  /** When each outcome is reported, and what is written: the manifest with its only bare line of the
      version read replaced, and its pins. */
  ghost predicate Bumps(text: string, newer: string, r: Outcome) {
    var v := ReadVersion(text);
    var ls := Split(text);
    match r
    case BadVersion => !Admitted(newer)
    case NoVersion => Admitted(newer) && v.None?
    case AlreadyThere => Admitted(newer) && v.Some? && v.value.version == newer
    case NotOneLine =>
      Admitted(newer) && v.Some? && v.value.version != newer && CountOf(ls, BareLine(v.value.version)) != 1
    case Written(manifest) =>
      && Admitted(newer) && v.Some? && v.value.version != newer && CountOf(ls, BareLine(v.value.version)) == 1
      && manifest == WithPins(Unlines(ls[IndexOf(ls, BareLine(v.value.version)) := BareLine(newer)]), v.value.version, newer)
  }

  /** After a bump the scanner reads the same line as before: it finds the new version there exactly
      when that line is the one the bump replaced, and the old version otherwise. Pins disturb nothing. */
  lemma {:induction false} RereadExactly(text: string, newer: string, manifest: string)
    requires Bumps(text, newer, Written(manifest))
    ensures ReadVersion(text).Some?
    ensures ReadVersion(manifest) ==
            Some(Reading(ReadVersion(text).value.line,
                         if ReadsReplacedLine(text) then newer else ReadVersion(text).value.version))
  {
    var cur := ReadVersion(text).value.version;
    ReadIsPlain(text);
    AdmittedUnbroken(newer);
    var ls := Split(text);
    UnlinesSplit(text);
    var l, m := BareLine(cur), BareLine(newer);
    var k := IndexOf(ls, l);
    BareReread(ls, k, cur, newer);
    var bare := Unlines(ls[k := m]);
    QuoteSegments(bare);
    PinnedReads("", true, Segments(bare), cur, newer);
    assert "" + Quote(Segments(bare)) == bare;
    assert "" + WithPins(bare, cur, newer) == WithPins(bare, cur, newer);
  }

  /** A bump that replaces the line read keeps every document the check accepts acceptable: the check
      reads its version from the new manifest. */
  lemma {:induction false} ReleaseKeepsChecks(manifest: string, newer: string, bumped: string, doc: string, out: string)
    requires Bumps(manifest, newer, Written(bumped)) && ReadsReplacedLine(manifest)
    requires Segments(out) == Bumped(Segments(doc), ReadVersion(manifest).value.version, newer)
    requires Accepts(doc, ReadVersion(manifest).value.version)
    ensures ReadVersion(bumped).Some? && Accepts(out, ReadVersion(bumped).value.version)
  {
    ReadIsPlain(manifest);
    RereadExactly(manifest, newer, bumped);
    CheckedStaysChecked(doc, out, ReadVersion(manifest).value.version, newer);
  }

  // ---- The bump itself ----

  /** How many lines equal `l`, and the lines with `m` for each. */
  method ReplaceLines(ls: seq<string>, l: string, m: string) returns (count: nat, out: seq<string>)
    ensures count == CountOf(ls, l) && out == Replaced(ls, l, m)
  {
    count, out := 0, [];
    for i := 0 to |ls|
      invariant count + CountOf(ls[i..], l) == CountOf(ls, l)
      invariant out + Replaced(ls[i..], l, m) == Replaced(ls, l, m)
    {
      assert ls[i..][0] == ls[i] && ls[i..][1..] == ls[i + 1..];
      count := count + if ls[i] == l then 1 else 0;
      out := out + [if ls[i] == l then m else ls[i]];
    }
  }

  /** The manifest's part of the bump: when each error is reported, what is written, and what a scanner
      reads from it. */
  method BumpManifest(text: string, newer: string) returns (r: Outcome)
    ensures Bumps(text, newer, r)
    ensures r.Written? ==>
              ReadVersion(r.manifest) ==
              Some(Reading(ReadVersion(text).value.line,
                           if ReadsReplacedLine(text) then newer else ReadVersion(text).value.version))
  {
    if !Admitted(newer) {
      return BadVersion;
    }
    var version := CurrentVersion(text);
    if version.None? {
      return NoVersion;
    }
    var cur := version.value;
    if cur == newer {
      return AlreadyThere;
    }
    var ls := Split(text);
    var count, replaced := ReplaceLines(ls, BareLine(cur), BareLine(newer));
    if count != 1 {
      return NotOneLine;
    }
    OneReplaced(ls, BareLine(cur), BareLine(newer));
    ReadIsPlain(text);
    var manifest := SubstitutePins(Unlines(replaced), cur, newer);
    RereadExactly(text, newer, manifest);
    r := Written(manifest);
  }

  // ---- A bump that misses ----

  lemma {:induction false} LinesOfUnlines(ls: seq<string>)
    requires ls != [] && ls[|ls| - 1] != "" && forall i :: 0 <= i < |ls| ==> Unbroken(ls[i])
    ensures SplitLines(Unlines(ls)) == ls
  {
    var l := ls[0];
    assert "" + l == l;
    if |ls| == 1 {
      LinesOfPair("", l, "");
      assert l + "" == l;
    } else {
      var rest := "\n" + Unlines(ls[1..]);
      assert Unlines(ls) == l + rest;
      LinesOfPair("", l, rest);
      assert rest[1..] == Unlines(ls[1..]);
      LinesOfUnlines(ls[1..]);
      assert ls == [l] + ls[1..];
    }
  }

  /** A manifest whose workspace version line is indented, and with a bare version line elsewhere. */
  function Indented(cur: string): seq<string> {
    [PACKAGE, "  " + BareLine(cur), "[package]", BareLine(cur)]
  }

  lemma UnbrokenIsOneLine(s: string)
    requires Unbroken(s)
    ensures OneLine(s)
  {
  }

  lemma IndentUnbroken(l: string)
    requires Unbroken(l)
    ensures Unbroken("  " + l)
  {
    var s := "  " + l;
    assert forall i :: 0 <= i < |s| ==> s[i] == if i < 2 then ' ' else l[i - 2];
  }

  lemma IndentedLines(cur: string)
    requires Admitted(cur)
    ensures SplitLines(Unlines(Indented(cur))) == Split(Unlines(Indented(cur))) == Indented(cur)
  {
    var ls := Indented(cur);
    AdmittedUnbroken(cur);
    BareUnbroken(cur);
    IndentUnbroken(BareLine(cur));
    assert Unbroken(PACKAGE) && Unbroken("[package]");
    assert forall i :: 0 <= i < |ls| ==> Unbroken(ls[i]);
    LinesOfUnlines(ls);
    assert AllOneLine(ls) by {
      forall i | 0 <= i < |ls| ensures OneLine(ls[i]) {
        UnbrokenIsOneLine(ls[i]);
      }
    }
    SplitUnlines(ls);
  }

  lemma PackageKind()
    ensures Kind(PACKAGE) == Header(true)
  {
    LstripBlank("", PACKAGE);
    assert "" + PACKAGE == PACKAGE;
  }

  lemma IndentedKind(cur: string)
    requires Admitted(cur)
    ensures Kind("  " + BareLine(cur)) == VersionLine(cur)
  {
    var l := BareLine(cur);
    AdmittedUnbroken(cur);
    BareKind(cur);
    assert l[0] == 'v';
    LstripBlank("  ", l);
    LstripBlank("", l);
    assert "" + l == l;
  }

  lemma ReadSecond(h: string, l: string, rest: seq<string>, v: string)
    requires Kind(h) == Header(true) && Kind(l) == VersionLine(v)
    ensures ReadFrom([h, l] + rest, false) == Some(Reading(1, v))
  {
    assert ([h, l] + rest)[1..] == [l] + rest;
    assert ReadFrom([l] + rest, true) == Some(Reading(0, v));
  }

  lemma IndentedRead(cur: string)
    requires Admitted(cur)
    ensures ReadVersion(Unlines(Indented(cur))) == Some(Reading(1, cur))
  {
    IndentedLines(cur);
    PackageKind();
    IndentedKind(cur);
    var rest := ["[package]", BareLine(cur)];
    ReadSecond(PACKAGE, "  " + BareLine(cur), rest, cur);
    assert Indented(cur) == [PACKAGE, "  " + BareLine(cur)] + rest;
  }

  lemma OnlyLast(w: string, x: string, y: string, l: string)
    requires w != l && x != l && y != l
    ensures CountOf([w, x, y, l], l) == 1 && IndexOf([w, x, y, l], l) == 3
  {
    assert [w, x, y, l][1..] == [x, y, l] && [x, y, l][1..] == [y, l] && [y, l][1..] == [l];
    assert CountOf([l], l) == 1 && IndexOf([l], l) == 0;
    assert CountOf([y, l], l) == 1 && IndexOf([y, l], l) == 1;
    assert CountOf([x, y, l], l) == 1 && IndexOf([x, y, l], l) == 2;
  }

  /** The bump succeeds on such a manifest, and the workspace's version is the old one still. */
  lemma {:induction false} IndentedVersionIsMissed(cur: string, newer: string, r: Outcome)
    requires Admitted(cur) && Admitted(newer) && cur != newer && Bumps(Unlines(Indented(cur)), newer, r)
    ensures r.Written? && ReadVersion(r.manifest) == Some(Reading(1, cur))
  {
    var ls, l := Indented(cur), BareLine(cur);
    IndentedLines(cur);
    IndentedRead(cur);
    assert l[0] == 'v' && PACKAGE[0] == '[' && ("  " + l)[0] == ' ' && "[package]"[0] == '[';
    OnlyLast(PACKAGE, "  " + l, "[package]", l);
    assert r.Written?;
    RereadExactly(Unlines(ls), newer, r.manifest);
    TextAround(ls, 3);
    AdmittedUnbroken(cur);
    BareUnbroken(cur);
    LinesAround(Before(ls, 3), l, After(ls, 3));
    assert |SplitLines(Before(ls, 3))| == 3;
  }
}
