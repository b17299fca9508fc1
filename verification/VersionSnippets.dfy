/** Dependency snippets in documentation, such as `adk-rust = "1.0.0"`: the patterns that
    scripts/bump-version.py rewrites and scripts/check-doc-versions.py reads, character by character,
    and the same patterns on a text cut at its quotation marks. */
module VersionSnippets {
  import opened TextLines
  import opened Wrappers

  const QUOTE := "\""

  // ---- Texts cut at quotation marks ----

  predicate Unquoted(s: string) {
    '"' !in s
  }

  /** The pieces of a text between its quotation marks. */
  function Segments(t: string): (ss: seq<string>)
    ensures ss != [] && forall i :: 0 <= i < |ss| ==> Unquoted(ss[i])
  {
    if t == "" then [""]
    else if t[0] == '"' then [""] + Segments(t[1..])
    else
      var rest := Segments(t[1..]);
      [[t[0]] + rest[0]] + rest[1..]
  }

  function Quote(ss: seq<string>): string {
    Join(ss, QUOTE)
  }

  lemma {:induction false} QuoteSegments(t: string)
    ensures Quote(Segments(t)) == t
  {
    if t != "" {
      QuoteSegments(t[1..]);
      var rest := Segments(t[1..]);
      if t[0] == '"' {
        assert Segments(t)[1..] == rest;
        assert t == "" + QUOTE + t[1..];
      } else {
        assert Segments(t)[1..] == rest[1..];
        assert Quote(Segments(t)) == [t[0]] + Quote(rest);
      }
    }
  }

  /** The segments of two texts put one after the other. */
  function Glue(a: seq<string>, b: seq<string>): seq<string>
    requires a != [] && b != []
  {
    a[..|a| - 1] + [a[|a| - 1] + b[0]] + b[1..]
  }

  lemma GluePrepend(s: string, a: seq<string>, b: seq<string>)
    requires a != [] && b != []
    ensures Glue([s] + a, b) == [s] + Glue(a, b)
  {
  }

  lemma GlueExtend(s: string, a: seq<string>, b: seq<string>)
    requires a != [] && b != []
    ensures Glue([s + a[0]] + a[1..], b) == [s + Glue(a, b)[0]] + Glue(a, b)[1..]
  {
    if |a| == 1 {
      assert s + a[0] + b[0] == s + (a[0] + b[0]);
    }
  }

  lemma {:induction false} SegmentsOfPair(x: string, y: string)
    ensures Segments(x + y) == Glue(Segments(x), Segments(y))
  {
    if x == "" {
      assert x + y == y;
      assert "" + Segments(y)[0] == Segments(y)[0];
    } else {
      SegmentsOfPair(x[1..], y);
      assert (x + y)[1..] == x[1..] + y && (x + y)[0] == x[0];
      var a, b := Segments(x[1..]), Segments(y);
      GluePrepend("", a, b);
      GlueExtend([x[0]], a, b);
    }
  }

  lemma {:induction false} SegmentsUnquoted(s: string)
    requires Unquoted(s)
    ensures Segments(s) == [s]
  {
    if s != "" {
      SegmentsUnquoted(s[1..]);
      assert [s[0]] + s[1..] == s;
    }
  }

  lemma {:induction false} SegmentsQuote(ss: seq<string>)
    requires ss != [] && forall i :: 0 <= i < |ss| ==> Unquoted(ss[i])
    ensures Segments(Quote(ss)) == ss
  {
    SegmentsUnquoted(ss[0]);
    if |ss| > 1 {
      SegmentsQuote(ss[1..]);
      var rest := Quote(ss[1..]);
      assert Quote(ss) == ss[0] + (QUOTE + rest);
      assert (QUOTE + rest)[1..] == rest;
      assert Segments(QUOTE + rest) == [""] + ss[1..];
      SegmentsOfPair(ss[0], QUOTE + rest);
      assert ss[0] + "" == ss[0];
    }
  }

  lemma PrefixAt(l: string, t: string, i: nat)
    requires l <= t && i < |l|
    ensures t[i] in l
  {
    assert l[i] == t[i];
  }

  lemma InPrefix(l: string, t: string, c: char)
    requires l <= t && c in l
    ensures c in t
  {
    var i :| 0 <= i < |l| && l[i] == c;
    assert t[i] == l[i];
  }

  /** The first quotation mark of a text cuts it in one way. */
  lemma FirstQuote(a: string, x: string, b: string, y: string)
    requires Unquoted(a) && Unquoted(b) && a + QUOTE + x == b + QUOTE + y
    ensures a == b && x == y
  {
    var t := a + QUOTE + x;
    var n: nat, m: nat := |a|, |b|;
    assert t[n] == '"' && t[m] == '"' && a <= t && b <= t;
    if n < m {
      PrefixAt(b, t, n);
    }
    if m < n {
      PrefixAt(a, t, m);
    }
    assert t[..n] == a && t[..m] == b && t[n + 1..] == x && t[m + 1..] == y;
  }

  // ---- Character classes ----

  datatype Class = NameChar | Space | Digit

  predicate In(k: Class, c: char) {
    match k
    case NameChar => 'a' <= c <= 'z' || '0' <= c <= '9' || c == '-'
    case Space => IsSpace(c)
    case Digit => IsDigit(c)
  }

  predicate IsWord(c: char) {
    'a' <= c <= 'z' || 'A' <= c <= 'Z' || '0' <= c <= '9' || c == '_'
  }

  predicate All(k: Class, s: string) {
    forall i :: 0 <= i < |s| ==> In(k, s[i])
  }

  /** What follows the longest run of a class. */
  function Skip(k: Class, s: string): (r: string)
    ensures |r| <= |s|
  {
    if s != "" && In(k, s[0]) then Skip(k, s[1..]) else s
  }

  lemma {:induction false} SkipRun(k: Class, s: string) returns (w: string)
    ensures All(k, w) && s == w + Skip(k, s)
    ensures Skip(k, s) == "" || !In(k, Skip(k, s)[0])
  {
    if s != "" && In(k, s[0]) {
      var v := SkipRun(k, s[1..]);
      w := [s[0]] + v;
      assert s == [s[0]] + s[1..];
    } else {
      w := "";
    }
  }

  lemma {:induction false} SkipExactly(k: Class, w: string, s: string)
    requires All(k, w) && (s == "" || !In(k, s[0]))
    ensures Skip(k, w + s) == s
  {
    if w == "" {
      assert w + s == s;
    } else {
      assert (w + s)[1..] == w[1..] + s;
      SkipExactly(k, w[1..], s);
    }
  }

  // ---- Patterns ----

  /** `name = "` and `name = { version = "` */
  datatype Form = Plain | Table

  function Literal(l: string, s: string): Option<string> {
    if l <= s then Some(s[|l|..]) else None
  }

  function SkipFamily(s: string): Option<string> {
    if "adk-" <= s then Some(s[4..])
    else if "awp-" <= s then Some(s[4..])
    else if "cargo-" <= s then Some(s[6..])
    else None
  }

  /** `=` with white space around it */
  function SkipEquals(s: string): Option<string> {
    var t := Skip(Space, s);
    if t != "" && t[0] == '=' then Some(Skip(Space, t[1..])) else None
  }

  /** `{ version =` */
  function AfterTable(s: string): Option<string> {
    if s == "" || s[0] != '{' then None else
      var v := Literal("version", Skip(Space, s[1..]));
      if v.None? then None else SkipEquals(v.value)
  }

  /** Reads the head of a snippet up to its opening quotation mark, and returns what follows. */
  function HeadRest(p: Form, s: string): Option<string> {
    var f := SkipFamily(s);
    if f.None? then None else
      var n := Skip(NameChar, f.value);
      var e := SkipEquals(n);
      if n == f.value || e.None? then None else if p.Plain? then e else AfterTable(e.value)
  }

  /** Reads the head of a snippet with its opening quotation mark, and returns what follows. */
  function AfterHead(p: Form, s: string): Option<string> {
    var r := HeadRest(p, s);
    if r.None? then None else Literal(QUOTE, r.value)
  }

  lemma AfterHeadIsShorter(p: Form, s: string)
    requires AfterHead(p, s).Some?
    ensures |AfterHead(p, s).value| < |s|
  {
  }

  /** What follows the longest three-part version a text starts with. */
  function AfterVersion(s: string): Option<string> {
    var a := Skip(Digit, s);
    if a == s || !("." <= a) then None else
      var b := Skip(Digit, a[1..]);
      if b == a[1..] || !("." <= b) then None else
        var c := Skip(Digit, b[1..]);
        if c == b[1..] then None else Some(c)
  }

  /** A whole segment is the head of a snippet. */
  predicate IsHead(p: Form, h: string) {
    HeadRest(p, h) == Some("")
  }

  /** A segment ends in the head of a snippet; `edge` says whether a word may start at its beginning. */
  predicate EndsInHead(p: Form, edge: bool, h: string)
    decreases |h|
  {
    (edge && IsHead(p, h)) || (h != "" && EndsInHead(p, !IsWord(h[0]), h[1..]))
  }

  /** A whole segment is a three-part version. */
  predicate IsVersion(s: string) {
    AfterVersion(s) == Some("")
  }

  // ---- What the patterns mean ----

  predicate IsPackage(n: string) {
    || ("adk-" <= n && |n| > 4 && All(NameChar, n[4..]))
    || ("awp-" <= n && |n| > 4 && All(NameChar, n[4..]))
    || ("cargo-" <= n && |n| > 6 && All(NameChar, n[6..]))
  }

  /** `=` between two runs of white space */
  ghost predicate IsEquals(s: string) {
    exists w, v :: All(Space, w) && All(Space, v) && s == w + "=" + v
  }

  ghost predicate IsPlainHead(h: string) {
    exists name, e :: IsPackage(name) && IsEquals(e) && h == name + e
  }

  ghost predicate IsTableHead(h: string) {
    exists name, e, w, f ::
      IsPackage(name) && IsEquals(e) && All(Space, w) && IsEquals(f) && h == name + e + ("{" + w + "version" + f)
  }

  lemma SkipAll(k: Class, s: string)
    requires All(k, s)
    ensures Skip(k, s) == ""
  {
    SkipExactly(k, s, "");
    assert s + "" == s;
  }

  lemma EqualsRead(e: string, r: string)
    requires IsEquals(e) && (r == "" || !IsSpace(r[0]))
    ensures SkipEquals(e + r) == Some(r)
  {
    var w, v :| All(Space, w) && All(Space, v) && e == w + "=" + v;
    assert e + r == w + ("=" + v + r);
    SkipExactly(Space, w, "=" + v + r);
    assert ("=" + v + r)[1..] == v + r;
    SkipExactly(Space, v, r);
  }

  lemma EqualsOf(s: string, w: string, v: string, r: string)
    requires All(Space, w) && All(Space, v)
    requires |w| < |s| && s[..|w|] == w && s[|w|] == '=' && s[|w| + 1..] == v + r
    ensures IsEquals(w + "=" + v) && s == w + "=" + v + r
  {
  }

  lemma EqualsRun(s: string) returns (e: string)
    requires SkipEquals(s).Some?
    ensures IsEquals(e) && s == e + SkipEquals(s).value
    ensures SkipEquals(s).value == "" || !IsSpace(SkipEquals(s).value[0])
  {
    var w := SkipRun(Space, s);
    var t := Skip(Space, s);
    var v := SkipRun(Space, t[1..]);
    EqualsOf(s, w, v, SkipEquals(s).value);
    e := w + "=" + v;
  }

  lemma FamilyRead(h: string, name: string)
    requires name <= h && IsPackage(name)
    ensures SkipFamily(h) == Some(h[if "cargo-" <= name then 6 else 4..])
  {
    assert h[..4] == name[..4];
    assert name[0] == h[0] && name[1] == h[1];
    if "cargo-" <= name {
      assert h[..6] == name[..6];
    }
  }

  lemma EqualsStart(e: string)
    requires IsEquals(e)
    ensures e != "" && !In(NameChar, e[0])
  {
  }

  lemma NameRead(p: Form, name: string, e: string, r: string)
    requires IsPackage(name) && IsEquals(e) && (r == "" || !IsSpace(r[0]))
    ensures HeadRest(p, name + e + r) == if p.Plain? then Some(r) else AfterTable(r)
  {
    var k := if "cargo-" <= name then 6 else 4;
    var h := name + e + r;
    assert h[k..] == name[k..] + (e + r);
    FamilyRead(h, name);
    EqualsStart(e);
    SkipExactly(NameChar, name[k..], e + r);
    EqualsRead(e, r);
  }

  lemma PackageOf(h: string, f: string, w: string)
    requires SkipFamily(h) == Some(f) && w != "" && All(NameChar, w)
    ensures IsPackage(h[..|h| - |f|] + w)
  {
    var name := h[..|h| - |f|] + w;
    assert name[|h| - |f|..] == w;
    assert forall i :: 0 <= i < |h| - |f| ==> name[i] == h[i];
  }

  lemma NameOf(h: string, f: string, w: string, n: string, e: string, r: string)
    requires |f| <= |h| && h[|h| - |f|..] == f && f == w + n && n == e + r
    ensures h == h[..|h| - |f|] + w + e + r
  {
    assert h == h[..|h| - |f|] + f;
  }

  lemma NameRun(p: Form, h: string) returns (name: string, e: string, r: string)
    requires HeadRest(p, h).Some?
    ensures IsPackage(name) && IsEquals(e) && h == name + e + r
    ensures (if p.Plain? then Some(r) else AfterTable(r)) == HeadRest(p, h)
  {
    var f := SkipFamily(h).value;
    var w := SkipRun(NameChar, f);
    var n := Skip(NameChar, f);
    e := EqualsRun(n);
    r := SkipEquals(n).value;
    name := h[..|h| - |f|] + w;
    PackageOf(h, f, w);
    NameOf(h, f, w, n, e, r);
  }

  /** The plain head is a package name, then `=` with white space around it. */
  lemma {:induction false} PlainHeadMeaning(h: string)
    ensures IsHead(Plain, h) <==> IsPlainHead(h)
  {
    if IsHead(Plain, h) {
      var name, e, r := NameRun(Plain, h);
      assert h == name + e;
    }
    if IsPlainHead(h) {
      var name, e :| IsPackage(name) && IsEquals(e) && h == name + e;
      NameRead(Plain, name, e, "");
      assert h + "" == h;
    }
  }

  lemma TableSpelled(r: string, w: string, v: string, f: string)
    requires r != "" && r[0] == '{' && r[1..] == w + v && "version" <= v && v[7..] == f + ""
    ensures r == "{" + w + "version" + f
  {
    assert v == "version" + f;
  }

  lemma TableRun(r: string) returns (w: string, f: string)
    requires AfterTable(r) == Some("")
    ensures All(Space, w) && IsEquals(f) && r == "{" + w + "version" + f
  {
    w := SkipRun(Space, r[1..]);
    var v := Skip(Space, r[1..]);
    f := EqualsRun(v[7..]);
    TableSpelled(r, w, v, f);
  }

  lemma TableRead(w: string, f: string)
    requires All(Space, w) && IsEquals(f)
    ensures AfterTable("{" + w + "version" + f) == Some("")
  {
    var s := "{" + w + "version" + f;
    assert s[1..] == w + ("version" + f);
    SkipExactly(Space, w, "version" + f);
    assert ("version" + f)[7..] == f;
    EqualsRead(f, "");
    assert f + "" == f;
  }

  /** The table head is a package name, `=`, an opening brace and `version =`. */
  lemma {:induction false} TableHeadMeaning(h: string)
    ensures IsHead(Table, h) <==> IsTableHead(h)
  {
    if IsHead(Table, h) {
      var name, e, r := NameRun(Table, h);
      var w, f := TableRun(r);
    }
    if IsTableHead(h) {
      var name, e, w, f :|
        IsPackage(name) && IsEquals(e) && All(Space, w) && IsEquals(f) && h == name + e + ("{" + w + "version" + f);
      NameRead(Table, name, e, "{" + w + "version" + f);
      TableRead(w, f);
    }
  }

  ghost predicate IsDotted(s: string, a: string, b: string, c: string) {
    a != "" && b != "" && c != "" && All(Digit, a) && All(Digit, b) && All(Digit, c) &&
    s == a + "." + b + "." + c
  }

  lemma DottedRead(s: string, a: string, b: string, c: string)
    requires IsDotted(s, a, b, c)
    ensures IsVersion(s)
  {
    var y := "." + c;
    var x := "." + (b + y);
    assert s == a + x;
    SkipExactly(Digit, a, x);
    assert x[1..] == b + y;
    SkipExactly(Digit, b, y);
    assert y[1..] == c;
    SkipAll(Digit, c);
  }

  /** A version is three runs of digits with dots between them. */
  lemma {:induction false} VersionMeaning(s: string)
    ensures IsVersion(s) <==> exists a, b, c :: IsDotted(s, a, b, c)
  {
    if IsVersion(s) {
      var a := SkipRun(Digit, s);
      var x := Skip(Digit, s);
      var b := SkipRun(Digit, x[1..]);
      var y := Skip(Digit, x[1..]);
      var c := SkipRun(Digit, y[1..]);
      assert x == "." + x[1..] && y == "." + y[1..];
      assert s == a + "." + b + "." + c;
      assert IsDotted(s, a, b, c);
    }
    if a, b, c :| IsDotted(s, a, b, c) {
      DottedRead(s, a, b, c);
    }
  }

  // ---- Patterns on segments ----

  lemma SkipSegment(k: Class, s: string, b: string)
    ensures Skip(k, s + QUOTE + b) == Skip(k, s) + QUOTE + b
  {
    var w := SkipRun(k, s);
    var r := Skip(k, s);
    assert s + QUOTE + b == w + (r + QUOTE + b);
    SkipExactly(k, w, r + QUOTE + b);
  }

  lemma LiteralSegment(l: string, s: string, b: string)
    requires Unquoted(l)
    ensures l <= s + QUOTE + b <==> l <= s
    ensures l <= s ==> (s + QUOTE + b)[|l|..] == s[|l|..] + QUOTE + b
  {
    var t := s + QUOTE + b;
    var n: nat := |s|;
    if l <= t && n < |l| {
      PrefixAt(l, t, n);
    }
    if l <= s {
      assert forall i :: 0 <= i < |l| ==> t[i] == s[i];
    }
  }

  lemma EqualsSegment(s: string, b: string)
    ensures SkipEquals(s + QUOTE + b) ==
            if SkipEquals(s).Some? then Some(SkipEquals(s).value + QUOTE + b) else None
  {
    SkipSegment(Space, s, b);
    var t := Skip(Space, s);
    LiteralSegment("=", t, b);
    if t != "" && t[0] == '=' {
      SkipSegment(Space, t[1..], b);
    }
  }

  lemma {:induction false} TableSegment(s: string, b: string)
    ensures AfterTable(s + QUOTE + b) ==
            if AfterTable(s).Some? then Some(AfterTable(s).value + QUOTE + b) else None
  {
    LiteralSegment("{", s, b);
    if s != "" && s[0] == '{' {
      SkipSegment(Space, s[1..], b);
      var t := Skip(Space, s[1..]);
      LiteralSegment("version", t, b);
      if "version" <= t {
        EqualsSegment(t[7..], b);
      }
    }
  }

  lemma FamilySegment(s: string, b: string)
    ensures SkipFamily(s + QUOTE + b) ==
            if SkipFamily(s).Some? then Some(SkipFamily(s).value + QUOTE + b) else None
  {
    LiteralSegment("adk-", s, b);
    LiteralSegment("awp-", s, b);
    LiteralSegment("cargo-", s, b);
  }

  lemma HeadRestSegment(p: Form, s: string, b: string)
    ensures HeadRest(p, s + QUOTE + b) ==
            if HeadRest(p, s).Some? then Some(HeadRest(p, s).value + QUOTE + b) else None
  {
    FamilySegment(s, b);
    if SkipFamily(s).Some? {
      var f := SkipFamily(s).value;
      SkipSegment(NameChar, f, b);
      var n := Skip(NameChar, f);
      assert |f + QUOTE + b| == |f| + 1 + |b| && |n + QUOTE + b| == |n| + 1 + |b|;
      assert n + QUOTE + b == f + QUOTE + b <==> n == f by {
        var w := SkipRun(NameChar, f);
      }
      EqualsSegment(n, b);
      if SkipEquals(n).Some? {
        TableSegment(SkipEquals(n).value, b);
      }
    }
  }

  lemma SkipUnquoted(k: Class, s: string)
    requires Unquoted(s)
    ensures Unquoted(Skip(k, s))
  {
    var w := SkipRun(k, s);
  }

  lemma EqualsUnquoted(s: string)
    requires Unquoted(s) && SkipEquals(s).Some?
    ensures Unquoted(SkipEquals(s).value)
  {
    SkipUnquoted(Space, s);
    SkipUnquoted(Space, Skip(Space, s)[1..]);
  }

  lemma HeadRestUnquoted(p: Form, s: string)
    requires Unquoted(s) && HeadRest(p, s).Some?
    ensures Unquoted(HeadRest(p, s).value)
  {
    var f := SkipFamily(s).value;
    SkipUnquoted(NameChar, f);
    var n := Skip(NameChar, f);
    EqualsUnquoted(n);
    if p == Table {
      var e := SkipEquals(n).value;
      SkipUnquoted(Space, e[1..]);
      EqualsUnquoted(Skip(Space, e[1..])[7..]);
    }
  }

  /** In a text, the head of a snippet ends at the first quotation mark or there is none. */
  lemma {:induction false} HeadSegment(p: Form, h: string, b: string)
    requires Unquoted(h)
    ensures AfterHead(p, h + QUOTE + b) == if IsHead(p, h) then Some(b) else None
  {
    HeadRestSegment(p, h, b);
    if HeadRest(p, h).Some? {
      HeadRestUnquoted(p, h);
      var r := HeadRest(p, h).value;
      assert (r + QUOTE + b)[0] == if r == "" then '"' else r[0];
      if r == "" {
        assert ("" + QUOTE + b)[1..] == b;
      }
    }
  }

  lemma HeadUnquoted(p: Form, s: string)
    requires Unquoted(s)
    ensures AfterHead(p, s).None?
  {
    if HeadRest(p, s).Some? {
      HeadRestUnquoted(p, s);
      var r := HeadRest(p, s).value;
      assert QUOTE[0] == '"';
      if QUOTE <= r {
        InPrefix(QUOTE, r, '"');
      }
    }
  }

  lemma VersionSegment(s: string, b: string)
    ensures AfterVersion(s + QUOTE + b) ==
            if AfterVersion(s).Some? then Some(AfterVersion(s).value + QUOTE + b) else None
  {
    SkipSegment(Digit, s, b);
    var x := Skip(Digit, s);
    LiteralSegment(".", x, b);
    if "." <= x {
      SkipSegment(Digit, x[1..], b);
      var y := Skip(Digit, x[1..]);
      LiteralSegment(".", y, b);
      if "." <= y {
        SkipSegment(Digit, y[1..], b);
      }
    }
  }
}
