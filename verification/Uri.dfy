/** PCOS URIs: the printer and the parser, and exactly when the second undoes the first. */
module Uri {
  import opened Wrappers
  import opened Strings

  type Uuid = nat

  datatype PcosUri = PcosUri(cloudId: string, deviceId: Uuid, nodeId: Option<Uuid>, fileId: Option<Uuid>)

  /** The text form of a UUID, as the uuid crate prints and parses it; the parser may accept more than it prints. */
  datatype UuidText = UuidText(show: Uuid -> string, parse: string -> Option<Uuid>)
  {
    ghost predicate Sound() {
      forall u: Uuid :: Plain(show(u)) && parse(show(u)) == Some(u)
    }

    ghost predicate Plain(s: string) {
      s != "" && Free(s, IsSlash) && !IsWhitespace(s[|s| - 1])
    }
  }

  datatype ParseError = BadPrefix | BadShape | BadUuid

  const PREFIX := "pcos://cloud/"

  // The printer

  function Optional(name: string, id: Option<Uuid>, t: UuidText): string {
    match id case Some(u) => "/" + name + "/" + t.show(u) case None => ""
  }

  function Printed(uri: PcosUri, t: UuidText): string {
    PREFIX + uri.cloudId + "/device/" + t.show(uri.deviceId) + Optional("node", uri.nodeId, t)
      + Optional("file", uri.fileId, t)
  }

  // The parser

  /** The segments from index i on: pairs after "node" or "file" are read, anything else is skipped. */
  function Tail(parts: seq<string>, i: nat, node: Option<Uuid>, file: Option<Uuid>, t: UuidText)
    : Result<(Option<Uuid>, Option<Uuid>), ParseError>
    decreases |parts| - i
  {
    if i >= |parts| then Ok((node, file))
    else if parts[i] == "node" && i + 1 < |parts| then
      if t.parse(parts[i + 1]).Some? then Tail(parts, i + 2, t.parse(parts[i + 1]), file, t) else Err(BadUuid)
    else if parts[i] == "file" && i + 1 < |parts| then
      if t.parse(parts[i + 1]).Some? then Tail(parts, i + 2, node, t.parse(parts[i + 1]), t) else Err(BadUuid)
    else Tail(parts, i + 1, node, file, t)
  }

  function Parsed(s: string, t: UuidText): Result<PcosUri, ParseError> {
    var trimmed := Trim(s, IsWhitespace);
    if !(PREFIX <= trimmed) then Err(BadPrefix)
    else
      var parts := Split(trimmed[|PREFIX|..], IsSlash);
      if |parts| < 3 || parts[1] != "device" then Err(BadShape)
      else if t.parse(parts[2]).None? then Err(BadUuid)
      else match Tail(parts, 3, None, None, t)
        case Err(e) => Err(e)
        case Ok((node, file)) => Ok(PcosUri(parts[0], t.parse(parts[2]).value, node, file))
  }

  method FromStr(s: string, t: UuidText) returns (r: Result<PcosUri, ParseError>)
    ensures r == Parsed(s, t)
  {
    var trimmed := Trim(s, IsWhitespace);
    if !(PREFIX <= trimmed) {
      return Err(BadPrefix);
    }
    var rest := trimmed[|PREFIX|..];
    var parts := Split(rest, IsSlash);
    if |parts| < 3 || parts[1] != "device" {
      return Err(BadShape);
    }
    var cloudId := parts[0];
    var deviceId := t.parse(parts[2]);
    if deviceId.None? {
      return Err(BadUuid);
    }
    var nodeId: Option<Uuid>, fileId: Option<Uuid> := None, None;
    var i := 3;
    while i < |parts|
      invariant Tail(parts, 3, None, None, t) == Tail(parts, i, nodeId, fileId, t)
      decreases |parts| - i
    {
      if parts[i] == "node" && i + 1 < |parts| {
        nodeId := t.parse(parts[i + 1]);
        if nodeId.None? {
          return Err(BadUuid);
        }
        i := i + 2;
      } else if parts[i] == "file" && i + 1 < |parts| {
        fileId := t.parse(parts[i + 1]);
        if fileId.None? {
          return Err(BadUuid);
        }
        i := i + 2;
      } else {
        i := i + 1;
      }
    }
    return Ok(PcosUri(cloudId, deviceId.value, nodeId, fileId));
  }

  // Printing and parsing

  /** The segments a printed URI has after its prefix. */
  function Segments(uri: PcosUri, t: UuidText): seq<string> {
    [uri.cloudId, "device", t.show(uri.deviceId)] + Pair("node", uri.nodeId, t) + Pair("file", uri.fileId, t)
  }

  function Pair(name: string, id: Option<Uuid>, t: UuidText): seq<string> {
    match id case Some(u) => [name, t.show(u)] case None => []
  }

  lemma {:induction false} JoinAppend(a: seq<string>, b: seq<string>, c: char)
    requires a != []
    ensures Join(a + b, c) == Join(a, c) + (if b == [] then "" else [c] + Join(b, c))
  {
    if b == [] {
      assert a + b == a;
    } else if |a| > 1 {
      assert (a + b)[1..] == a[1..] + b;
      JoinAppend(a[1..], b, c);
    } else {
      assert (a + b)[1..] == b;
    }
  }

  lemma JoinPair(x: string, y: string)
    ensures Join([x, y], '/') == x + "/" + y
  {
    assert [x, y][1..] == [y];
  }

  /** The tail of a printed URI joins on with a slash, whether the id is there or not. */
  lemma OptionalJoins(name: string, id: Option<Uuid>, t: UuidText)
    ensures Optional(name, id, t) == if Pair(name, id, t) == [] then "" else "/" + Join(Pair(name, id, t), '/')
  {
    if id.Some? {
      JoinPair(name, t.show(id.value));
    }
  }

  lemma HeadJoins(uri: PcosUri, t: UuidText)
    ensures Join([uri.cloudId, "device", t.show(uri.deviceId)], '/') == uri.cloudId + "/device/" + t.show(uri.deviceId)
  {
    var head := [uri.cloudId, "device", t.show(uri.deviceId)];
    assert head[1..] == ["device", t.show(uri.deviceId)];
    JoinPair("device", t.show(uri.deviceId));
    assert "/device/" == "/" + "device" + "/";
  }

  lemma PrintedJoins(uri: PcosUri, t: UuidText)
    ensures Printed(uri, t) == PREFIX + Join(Segments(uri, t), '/')
  {
    var head := [uri.cloudId, "device", t.show(uri.deviceId)];
    var node, file := Pair("node", uri.nodeId, t), Pair("file", uri.fileId, t);
    HeadJoins(uri, t);
    TailsJoin(head, uri, t);
    assert Segments(uri, t) == head + node + file;
    hide Join, Optional;
    assert Printed(uri, t)
      == PREFIX + (Join(head, '/') + Optional("node", uri.nodeId, t) + Optional("file", uri.fileId, t));
  }

  lemma TailsJoin(head: seq<string>, uri: PcosUri, t: UuidText)
    requires head != []
    ensures Join(head + Pair("node", uri.nodeId, t) + Pair("file", uri.fileId, t), '/')
      == Join(head, '/') + Optional("node", uri.nodeId, t) + Optional("file", uri.fileId, t)
  {
    hide Join, Optional, Pair;
    var node, file := Pair("node", uri.nodeId, t), Pair("file", uri.fileId, t);
    JoinAppend(head, node, '/');
    JoinAppend(head + node, file, '/');
    OptionalJoins("node", uri.nodeId, t);
    OptionalJoins("file", uri.fileId, t);
  }

  lemma PrintedIsTrim(uri: PcosUri, t: UuidText)
    requires t.Sound()
    ensures Trim(Printed(uri, t), IsWhitespace) == Printed(uri, t)
  {
    var s := Printed(uri, t);
    var last := if uri.fileId.Some? then uri.fileId.value else if uri.nodeId.Some? then uri.nodeId.value
      else uri.deviceId;
    assert t.Plain(t.show(last));
    assert s[0] == 'p';
    assert s[|s| - 1] == t.show(last)[|t.show(last)| - 1];
    TrimKeeps(s, IsWhitespace);
  }

  lemma TailOfPrinted(uri: PcosUri, t: UuidText)
    requires t.Sound()
    ensures Tail(Segments(uri, t), 3, None, None, t) == Ok((uri.nodeId, uri.fileId))
  {
    var parts := Segments(uri, t);
    if uri.nodeId.Some? {
      assert parts[3] == "node" && parts[4] == t.show(uri.nodeId.value);
      assert Tail(parts, 3, None, None, t) == Tail(parts, 5, uri.nodeId, None, t);
      if uri.fileId.Some? {
        assert parts[5] == "file" && "file" != "node" && parts[6] == t.show(uri.fileId.value);
        assert |parts| == 7 && t.parse(parts[6]) == uri.fileId;
        assert Tail(parts, 5, uri.nodeId, None, t) == Tail(parts, 7, uri.nodeId, uri.fileId, t);
      }
    } else if uri.fileId.Some? {
      assert parts[3] == "file" && "file" != "node" && parts[4] == t.show(uri.fileId.value);
    }
  }

  /** Parsing undoes printing iff the cloud id has no slash. */
  lemma PrintThenParse(uri: PcosUri, t: UuidText)
    requires t.Sound()
    ensures Parsed(Printed(uri, t), t) == Ok(uri) <==> Free(uri.cloudId, IsSlash)
  {
    hide Tail, Segments, Printed, Split;
    if Free(uri.cloudId, IsSlash) {
      PrintedJoins(uri, t);
      PrintedIsTrim(uri, t);
      SegmentsAreFree(uri, t);
      SplitJoin(Segments(uri, t), '/', IsSlash);
      TailOfPrinted(uri, t);
      assert Printed(uri, t)[|PREFIX|..] == Join(Segments(uri, t), '/');
    }
    if Parsed(Printed(uri, t), t) == Ok(uri) {
      ParsedIsFree(Printed(uri, t), t);
    }
  }

  /** More segments after a printed URI are read on from there. */
  lemma TailGoesOn(uri: PcosUri, t: UuidText, more: seq<string>)
    requires t.Sound()
    ensures var parts := Segments(uri, t);
      Tail(parts + more, 3, None, None, t) == Tail(parts + more, |parts|, uri.nodeId, uri.fileId, t)
  {
    var parts := Segments(uri, t) + more;
    if uri.nodeId.Some? {
      assert parts[3] == "node" && parts[4] == t.show(uri.nodeId.value);
      assert Tail(parts, 3, None, None, t) == Tail(parts, 5, uri.nodeId, None, t);
      if uri.fileId.Some? {
        assert parts[5] == "file" && "file" != "node" && parts[6] == t.show(uri.fileId.value);
      }
    } else if uri.fileId.Some? {
      assert parts[3] == "file" && "file" != "node" && parts[4] == t.show(uri.fileId.value);
    }
  }

  /** What is parsed when segments free of slashes and not ending in whitespace follow a printed URI. */
  lemma ParsedMore(uri: PcosUri, t: UuidText, more: seq<string>)
    requires t.Sound() && Free(uri.cloudId, IsSlash) && more != [] && AllFree(more, IsSlash)
    requires more[|more| - 1] != "" && !IsWhitespace(more[|more| - 1][|more[|more| - 1]| - 1])
    ensures var parts := Segments(uri, t);
      Parsed(Printed(uri, t) + "/" + Join(more, '/'), t) ==
        match Tail(parts + more, |parts|, uri.nodeId, uri.fileId, t)
        case Err(e) => Err(e)
        case Ok((node, file)) => Ok(PcosUri(uri.cloudId, uri.deviceId, node, file))
  {
    hide Tail, Split, Join;
    var parts := Segments(uri, t);
    var s := Printed(uri, t) + "/" + Join(more, '/');
    PrintedJoins(uri, t);
    SegmentsAreFree(uri, t);
    JoinAppend(parts, more, '/');
    assert s == PREFIX + Join(parts + more, '/');
    JoinLast(more, '/');
    TrimKeeps(s, IsWhitespace);
    SplitJoin(parts + more, '/', IsSlash);
    assert s[|PREFIX|..] == Join(parts + more, '/');
    TailGoesOn(uri, t, more);
  }

  lemma {:induction false} JoinLast(parts: seq<string>, c: char)
    requires parts != [] && parts[|parts| - 1] != ""
    ensures var j, last := Join(parts, c), parts[|parts| - 1]; j != "" && j[|j| - 1] == last[|last| - 1]
  {
    if |parts| > 1 {
      JoinLast(parts[1..], c);
    }
  }

  /** A later pair wins over an earlier one, and a segment that is neither "node" nor "file" is passed over. */
  lemma LaterPairsWin(uri: PcosUri, t: UuidText, u: Uuid, other: string)
    requires t.Sound() && Free(uri.cloudId, IsSlash)
    requires other != "" && Free(other, IsSlash) && !IsWhitespace(other[|other| - 1]) && other != "node"
      && other != "file"
    ensures Parsed(Printed(uri, t) + "/" + Join(["node", t.show(u)], '/'), t) == Ok(uri.(nodeId := Some(u)))
    ensures Parsed(Printed(uri, t) + "/" + Join(["file", t.show(u)], '/'), t) == Ok(uri.(fileId := Some(u)))
    ensures Parsed(Printed(uri, t) + "/" + Join([other], '/'), t) == Ok(uri)
  {
    hide Parsed, Printed, Segments, Join;
    assert t.Plain(t.show(u)) && "file" != "node";
    assert Free("node", IsSlash) && Free("file", IsSlash);
    ParsedMore(uri, t, ["node", t.show(u)]);
    ParsedMore(uri, t, ["file", t.show(u)]);
    ParsedMore(uri, t, [other]);
    var parts := Segments(uri, t);
    TailAt(parts, ["node", t.show(u)], uri.nodeId, uri.fileId, t);
    TailAt(parts, ["file", t.show(u)], uri.nodeId, uri.fileId, t);
    TailAt(parts, [other], uri.nodeId, uri.fileId, t);
  }

  /** Reading on with one pair or one other segment. */
  lemma TailAt(parts: seq<string>, more: seq<string>, node: Option<Uuid>, file: Option<Uuid>, t: UuidText)
    ensures var r := Tail(parts + more, |parts|, node, file, t);
      && (|more| == 2 && more[0] == "node" && t.parse(more[1]).Some? ==> r == Ok((t.parse(more[1]), file)))
      && (|more| == 2 && more[0] == "file" && t.parse(more[1]).Some? ==> r == Ok((node, t.parse(more[1]))))
      && (|more| == 1 && more[0] != "node" && more[0] != "file" ==> r == Ok((node, file)))
  {
    assert "file" != "node";
    if |more| == 2 {
      assert (parts + more)[|parts|] == more[0] && (parts + more)[|parts| + 1] == more[1];
    } else if |more| == 1 {
      assert (parts + more)[|parts|] == more[0];
    }
  }

  /** What is accepted, in the printer's terms: the prefix, and segments of which the second is "device" and the third
      reads as the device id; the first is the cloud id. Anything without the prefix is refused. */
  lemma AcceptedShape(s: string, t: UuidText)
    ensures var trimmed := Trim(s, IsWhitespace);
      && (Parsed(s, t).Ok? ==> exists parts: seq<string> ::
            && |parts| >= 3 && AllFree(parts, IsSlash) && trimmed == "pcos://cloud/" + Join(parts, '/')
            && parts[1] == "device" && Parsed(s, t).value.cloudId == parts[0]
            && t.parse(parts[2]) == Some(Parsed(s, t).value.deviceId))
      && (!("pcos://cloud/" <= trimmed) ==> Parsed(s, t) == Err(BadPrefix))
  {
    hide Tail, Split, Join, Trim;
    var trimmed := Trim(s, IsWhitespace);
    if PREFIX <= trimmed {
      var rest := trimmed[|PREFIX|..];
      SplitIsFree(rest, IsSlash);
      JoinSplit(rest);
      assert trimmed == PREFIX + rest;
      assert Parsed(s, t).Ok? ==> |Split(rest, IsSlash)| >= 3;
    }
  }

  lemma {:induction false} JoinSplit(s: string)
    ensures Join(Split(s, IsSlash), '/') == s
  {
    if s != "" {
      var rest := Split(s[1..], IsSlash);
      JoinSplit(s[1..]);
      if IsSlash(s[0]) {
        assert ([""] + rest)[1..] == rest;
      } else {
        assert ([[s[0]] + rest[0]] + rest[1..])[1..] == rest[1..];
      }
    }
  }

  lemma SegmentsAreFree(uri: PcosUri, t: UuidText)
    requires t.Sound() && Free(uri.cloudId, IsSlash)
    ensures var parts := Segments(uri, t);
      && AllFree(parts, IsSlash) && |parts| >= 3
      && parts[0] == uri.cloudId && parts[1] == "device" && parts[2] == t.show(uri.deviceId)
      && t.parse(parts[2]) == Some(uri.deviceId)
  {
    assert t.Plain(t.show(uri.deviceId));
    assert uri.nodeId.Some? ==> t.Plain(t.show(uri.nodeId.value));
    assert uri.fileId.Some? ==> t.Plain(t.show(uri.fileId.value));
  }

  /** Every value the parser accepts has a cloud id without a slash. */
  lemma ParsedIsFree(s: string, t: UuidText)
    requires Parsed(s, t).Ok?
    ensures Free(Parsed(s, t).value.cloudId, IsSlash)
  {
    hide Tail, Split;
    SplitIsFree(Trim(s, IsWhitespace)[|PREFIX|..], IsSlash);
  }

  /** So parsing what was printed from an accepted value gives that value again, on every input. */
  lemma ParsePrintParse(s: string, t: UuidText)
    requires t.Sound() && Parsed(s, t).Ok?
    ensures Parsed(Printed(Parsed(s, t).value, t), t) == Parsed(s, t)
  {
    hide Parsed, Printed;
    ParsedIsFree(s, t);
    PrintThenParse(Parsed(s, t).value, t);
  }
}
