/** Checkpoint thread ids (adk-graph/src/agent.rs): the parts of an identity joined with `:`, with `%`
    and `:` percent-encoded inside each part. */
module ThreadId {
  import opened Wrappers
  import opened TextLines

  function EncodeChar(c: char): string {
    if c == '%' then "%25" else if c == ':' then "%3A" else [c]
  }

  function EncodePart(part: string): string {
    if part == "" then "" else EncodeChar(part[0]) + EncodePart(part[1..])
  }

  /** Encoded parts joined with `:`. */
  function JoinParts(parts: seq<string>): string {
    if parts == [] then "" else if |parts| == 1 then EncodePart(parts[0])
    else EncodePart(parts[0]) + ":" + JoinParts(parts[1..])
  }

  lemma EncodeStep(part: string, i: nat)
    requires i < |part|
    ensures EncodePart(part[i..]) == EncodeChar(part[i]) + EncodePart(part[i + 1..])
  {
    assert part[i..][0] == part[i] && part[i..][1..] == part[i + 1..];
  }

  /** Appends one encoded part. */
  method PushThreadPart(id: string, part: string) returns (longer: string)
    ensures longer == id + EncodePart(part)
  {
    longer := id;
    for i := 0 to |part|
      invariant longer + EncodePart(part[i..]) == id + EncodePart(part)
    {
      EncodeStep(part, i);
      Regroup(longer, EncodeChar(part[i]), EncodePart(part[i + 1..]));
      match part[i] {
        case '%' => longer := longer + "%25";
        case ':' => longer := longer + "%3A";
        case other => longer := longer + [other];
      }
    }
  }

  lemma {:induction false} JoinOneMore(parts: seq<string>, part: string)
    requires parts != []
    ensures JoinParts(parts + [part]) == JoinParts(parts) + ":" + EncodePart(part)
  {
    var longer := parts + [part];
    if |parts| == 1 {
      assert longer[1..] == [part];
    } else {
      assert longer[1..] == parts[1..] + [part];
      JoinOneMore(parts[1..], part);
    }
  }

  /** The checkpoint thread of a session. */
  method SessionThreadId(app: string, user: string, session: string) returns (id: string)
    ensures id == JoinParts([app, user, session])
  {
    var parts := [app, user, session];
    id := "";
    for i := 0 to |parts|
      invariant id == JoinParts(parts[..i])
    {
      assert parts[..i + 1] == parts[..i] + [parts[i]];
      if i > 0 {
        JoinOneMore(parts[..i], parts[i]);
        id := id + ":";
      }
      id := PushThreadPart(id, parts[i]);
    }
    assert parts[..|parts|] == parts;
  }

  /** The checkpoint thread of one graph tool call. */
  method ToolCallThreadId(app: string, user: string, session: string, call: string) returns (id: string)
    ensures id == JoinParts([app, user, session, call])
  {
    id := SessionThreadId(app, user, session);
    id := id + ":";
    id := PushThreadPart(id, call);
    JoinOneMore([app, user, session], call);
    assert [app, user, session] + [call] == [app, user, session, call];
  }

  lemma {:induction false} EncodePair(a: string, b: string)
    ensures EncodePart(a + b) == EncodePart(a) + EncodePart(b)
  {
    if a == "" {
      assert a + b == b;
    } else {
      assert (a + b)[1..] == a[1..] + b;
      EncodePair(a[1..], b);
      Regroup(EncodeChar(a[0]), EncodePart(a[1..]), EncodePart(b));
    }
  }

  /** Inside a part, `%` becomes `%25` and `:` becomes `%3A`; every other character stays. */
  lemma {:induction false} EncodingMeaning(a: string, c: char, b: string)
    ensures EncodePart("") == ""
    ensures EncodePart(a + [c] + b) ==
            EncodePart(a) + (if c == '%' then "%25" else if c == ':' then "%3A" else [c]) + EncodePart(b)
  {
    EncodePair(a + [c], b);
    EncodePair(a, [c]);
    assert [c][1..] == "";
    assert EncodePart([c]) == EncodeChar(c);
  }

  /** The id of a session or of a tool call: its parts, encoded, with a colon between each two. */
  lemma {:induction false} ThreadIdMeaning(app: string, user: string, session: string, call: string)
    ensures JoinParts([app, user, session]) == EncodePart(app) + ":" + (EncodePart(user) + ":" + EncodePart(session))
    ensures JoinParts([app, user, session, call]) == JoinParts([app, user, session]) + ":" + EncodePart(call)
  {
    assert [app, user, session][1..] == [user, session] && [user, session][1..] == [session];
    assert JoinParts([session]) == EncodePart(session);
    assert JoinParts([user, session]) == EncodePart(user) + ":" + EncodePart(session);
    JoinOneMore([app, user, session], call);
    assert [app, user, session] + [call] == [app, user, session, call];
  }

  /** A part in which nothing is encoded stands in the id as it is. */
  lemma {:induction false} PlainPart(part: string)
    requires '%' !in part && ':' !in part
    ensures EncodePart(part) == part
  {
    if part != "" {
      PlainPart(part[1..]);
      assert part == [part[0]] + part[1..];
    }
  }

  // ---- Decoding ----

  /** Reads parts back; `cur` is the part being read. */
  function Decode(s: string, cur: string): Option<seq<string>> {
    if s == "" then Some([cur])
    else if s[0] == ':' then
      var rest := Decode(s[1..], "");
      if rest.None? then None else Some([cur] + rest.value)
    else if s[0] == '%' then
      if "%25" <= s then Decode(s[3..], cur + "%")
      else if "%3A" <= s then Decode(s[3..], cur + ":")
      else None
    else Decode(s[1..], cur + [s[0]])
  }

  lemma DecodeChar(c: char, tail: string, cur: string)
    ensures Decode(EncodeChar(c) + tail, cur) == Decode(tail, cur + [c])
  {
    var s := EncodeChar(c) + tail;
    if c == '%' {
      assert s[0] == '%' && "%25" <= s && s[3..] == tail;
    } else if c == ':' {
      assert s[0] == '%' && s[2] == 'A' && "%3A" <= s && s[3..] == tail;
    } else {
      assert s[0] == c && s[1..] == tail;
    }
  }

  lemma {:induction false} DecodePart(part: string, rest: string, cur: string)
    ensures Decode(EncodePart(part) + rest, cur) == Decode(rest, cur + part)
    decreases |part|
  {
    if part == "" {
      assert EncodePart(part) + rest == rest && cur + part == cur;
    } else {
      var c, tail := part[0], EncodePart(part[1..]) + rest;
      assert EncodePart(part) + rest == EncodeChar(c) + tail;
      DecodeChar(c, tail, cur);
      DecodePart(part[1..], rest, cur + [c]);
      assert cur + [c] + part[1..] == cur + part;
    }
  }

  lemma DecodeFirst(first: string, rest: string)
    ensures Decode(EncodePart(first) + (":" + rest), "") ==
            if Decode(rest, "").None? then None else Some([first] + Decode(rest, "").value)
  {
    DecodePart(first, ":" + rest, "");
    assert "" + first == first;
    assert (":" + rest)[0] == ':' && (":" + rest)[1..] == rest;
  }

  lemma DecodeOnly(part: string)
    ensures Decode(EncodePart(part), "") == Some([part])
  {
    DecodePart(part, "", "");
    assert EncodePart(part) + "" == EncodePart(part);
    assert "" + part == part;
  }

  /** A thread id can be decoded back into its parts. */
  lemma {:induction false} ThreadIdDecodes(parts: seq<string>)
    requires parts != []
    ensures Decode(JoinParts(parts), "") == Some(parts)
  {
    if |parts| == 1 {
      DecodeOnly(parts[0]);
      assert parts == [parts[0]];
    } else {
      var rest := JoinParts(parts[1..]);
      Regroup(EncodePart(parts[0]), ":", rest);
      DecodeFirst(parts[0], rest);
      ThreadIdDecodes(parts[1..]);
      assert parts == [parts[0]] + parts[1..];
    }
  }

  /** Distinct identities never share a thread, nor does a session share one with a tool call. */
  lemma {:induction false} ThreadIdsAreDistinct(a: seq<string>, b: seq<string>)
    requires a != [] && b != []
    ensures JoinParts(a) == JoinParts(b) <==> a == b
  {
    ThreadIdDecodes(a);
    ThreadIdDecodes(b);
  }
}
