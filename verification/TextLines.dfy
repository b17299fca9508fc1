/** Text as lines: splitting and joining at line breaks, and stripping white space. */
module TextLines {

  /** The characters Python's `str.isspace` accepts, which `strip` and `rstrip` remove. */
  predicate IsSpace(c: char) {
    || '\t' <= c <= '\r'
    || '\U{001C}' <= c <= ' '
    || c == '\U{0085}' || c == '\U{00A0}' || c == '\U{1680}'
    || '\U{2000}' <= c <= '\U{200A}'
    || c == '\U{2028}' || c == '\U{2029}' || c == '\U{202F}' || c == '\U{205F}' || c == '\U{3000}'
  }

  /** The zeros of the scripts whose digits Python's `\d` accepts beside the ASCII ones (Unicode 14). */
  const LOW_ZEROS: set<int> := {
    0x660, 0x6F0, 0x7C0, 0x966, 0x9E6, 0xA66, 0xAE6, 0xB66, 0xBE6, 0xC66,
    0xCE6, 0xD66, 0xDE6, 0xE50, 0xED0, 0xF20, 0x1040, 0x1090, 0x17E0, 0x1810,
    0x1946, 0x19D0, 0x1A80, 0x1A90, 0x1B50, 0x1BB0, 0x1C40, 0x1C50
  }
  const MIDDLE_ZEROS: set<int> := {
    0xA620, 0xA8D0, 0xA900, 0xA9D0, 0xA9F0, 0xAA50, 0xABF0, 0xFF10, 0x104A0, 0x10D30,
    0x11066, 0x110F0, 0x11136, 0x111D0, 0x112F0, 0x11450, 0x114D0, 0x11650, 0x116C0
  }
  const HIGH_ZEROS: set<int> := {
    0x11730, 0x118E0, 0x11950, 0x11C50, 0x11D50, 0x11DA0, 0x16A60, 0x16AC0, 0x16B50, 0x1D7CE,
    0x1D7D8, 0x1D7E2, 0x1D7EC, 0x1D7F6, 0x1E140, 0x1E2F0, 0x1E950, 0x1FBF0
  }

  predicate IsOtherZero(z: int) {
    z in LOW_ZEROS || z in MIDDLE_ZEROS || z in HIGH_ZEROS
  }

  predicate IsOtherDigit(c: char) {
    exists z :: c as int - 9 <= z <= c as int && IsOtherZero(z)
  }

  /** What `\d` matches. */
  predicate IsDigit(c: char) {
    '0' <= c <= '9' || (c >= '\U{0660}' && IsOtherDigit(c))
  }

  lemma SpaceCode(c: char)
    ensures IsSpace(c) ==> c as int < 0x660 || c as int == 0x1680 || 0x2000 <= c as int <= 0x205F || c as int == 0x3000
    ensures c >= '\U{0660}' <==> c as int >= 0x660
  {
  }

  lemma OtherZero(z: int)
    requires IsOtherZero(z)
    ensures z + 9 < 0x1680 || (0x1680 < z && z + 9 < 0x2000) || (0x205F < z && !(z <= 0x3000 <= z + 9))
  {
  }

  /** No digit is white space. */
  lemma DigitIsNoSpace(c: char)
    requires IsDigit(c)
    ensures !IsSpace(c)
  {
    SpaceCode(c);
    if c >= '\U{0660}' {
      var z :| c as int - 9 <= z <= c as int && IsOtherZero(z);
      OtherZero(z);
    }
  }

  predicate Blank(s: string) {
    forall i :: 0 <= i < |s| ==> IsSpace(s[i])
  }

  function Rstrip(s: string): (r: string)
    ensures r <= s
    ensures r == "" || !IsSpace(r[|r| - 1])
  {
    if s != "" && IsSpace(s[|s| - 1]) then Rstrip(s[..|s| - 1]) else s
  }

  function Lstrip(s: string): string {
    if s != "" && IsSpace(s[0]) then Lstrip(s[1..]) else s
  }

  function Strip(s: string): string {
    Rstrip(Lstrip(s))
  }

  lemma BlankRstrip(s: string)
    ensures Blank(s) <==> Rstrip(s) == ""
  {
    if s != "" && IsSpace(s[|s| - 1]) {
      var t := s[..|s| - 1];
      BlankRstrip(t);
      assert Blank(t) ==> Blank(s) by {
        assert forall i :: 0 <= i < |t| ==> s[i] == t[i];
      }
    }
  }

  /** Stripping a line that starts with a prefix whose last character is no space keeps it. */
  lemma RstripKeeps(s: string, p: string)
    requires p <= s && p != "" && !IsSpace(p[|p| - 1])
    ensures p <= Rstrip(s)
  {
    if IsSpace(s[|s| - 1]) {
      assert |s| > |p|;
      RstripKeeps(s[..|s| - 1], p);
    }
  }

  lemma Regroup<T>(a: seq<T>, b: seq<T>, c: seq<T>)
    ensures a + b + c == a + (b + c)
  {
  }

  // ---- Lines ----

  predicate OneLine(s: string) {
    '\n' !in s
  }

  predicate AllOneLine(ls: seq<string>) {
    forall i :: 0 <= i < |ls| ==> OneLine(ls[i])
  }

  /** `s.split("\n")` */
  function Split(s: string): (ls: seq<string>)
    ensures ls != [] && AllOneLine(ls)
  {
    if s == "" then [""]
    else if s[0] == '\n' then [""] + Split(s[1..])
    else
      var rest := Split(s[1..]);
      [[s[0]] + rest[0]] + rest[1..]
  }

  function Join(ls: seq<string>, sep: string): string {
    if ls == [] then "" else if |ls| == 1 then ls[0] else ls[0] + sep + Join(ls[1..], sep)
  }

  function Unlines(ls: seq<string>): string {
    Join(ls, "\n")
  }

  lemma UnlinesFirst(c: char, ls: seq<string>)
    requires ls != []
    ensures Unlines([[c] + ls[0]] + ls[1..]) == [c] + Unlines(ls)
  {
    assert ([[c] + ls[0]] + ls[1..])[1..] == ls[1..];
  }

  /** Joining the lines of a text gives the text back. */
  lemma {:induction false} UnlinesSplit(s: string)
    ensures Unlines(Split(s)) == s
  {
    if s != "" {
      UnlinesSplit(s[1..]);
      var rest := Split(s[1..]);
      if s[0] == '\n' {
        assert ([""] + rest)[1..] == rest;
        assert s == "" + "\n" + s[1..];
      } else {
        UnlinesFirst(s[0], rest);
        assert s == [s[0]] + s[1..];
      }
    }
  }

  lemma SplitFirst(l: string, s: string)
    requires OneLine(l)
    ensures Split(l + "\n" + s) == [l] + Split(s)
  {
    var t := l + "\n" + s;
    if l == "" {
      assert t[1..] == s;
    } else {
      SplitFirst(l[1..], s);
      assert t[1..] == l[1..] + "\n" + s;
      assert [l[0]] + l[1..] == l;
    }
  }

  lemma SplitOneLine(l: string)
    requires OneLine(l)
    ensures Split(l) == [l]
  {
    if l != "" {
      SplitOneLine(l[1..]);
      assert [l[0]] + l[1..] == l;
    }
  }

  /** Splitting joined lines gives the lines back. */
  lemma SplitUnlines(ls: seq<string>)
    requires ls != [] && AllOneLine(ls)
    ensures Split(Unlines(ls)) == ls
  {
    if |ls| == 1 {
      SplitOneLine(ls[0]);
    } else {
      SplitUnlines(ls[1..]);
      SplitFirst(ls[0], Unlines(ls[1..]));
      assert ls == [ls[0]] + ls[1..];
    }
  }

  lemma JoinAppend(a: seq<string>, b: seq<string>, sep: string)
    requires a != [] && b != []
    ensures Join(a + b, sep) == Join(a, sep) + sep + Join(b, sep)
  {
    if |a| == 1 {
      assert (a + b)[1..] == b;
    } else {
      JoinAppend(a[1..], b, sep);
      assert (a + b)[1..] == a[1..] + b;
    }
  }

  lemma JoinSnoc(a: seq<string>, l: string, sep: string)
    requires a != []
    ensures Join(a + [l], sep) == Join(a, sep) + sep + l
  {
    JoinAppend(a, [l], sep);
  }

  lemma UnlinesInjective(a: seq<string>, b: seq<string>)
    requires a != [] && b != [] && AllOneLine(a) && AllOneLine(b)
    ensures Unlines(a) == Unlines(b) <==> a == b
  {
    SplitUnlines(a);
    SplitUnlines(b);
  }

  /** Trailing white space of joined lines is that of the last line, when that is not blank. */
  lemma {:induction false} RstripAppend(p: string, l: string)
    requires !Blank(l)
    ensures Rstrip(p + l) == p + Rstrip(l)
  {
    var t := p + l;
    assert t[|t| - 1] == l[|l| - 1];
    if IsSpace(l[|l| - 1]) {
      var m := l[..|l| - 1];
      BlankRstrip(l);
      BlankRstrip(m);
      RstripAppend(p, m);
      assert t[..|t| - 1] == p + m;
    }
  }
}
