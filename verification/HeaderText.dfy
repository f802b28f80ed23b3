/** What the header blocks of the builders say as text: names and values, in order. */
module HeaderText {
  import opened Bytes
  import opened Qpack
  import opened QpackBuilder
  import StaticTable

  datatype Pair = Pair(name: Bytes, value: Bytes)

  /** The name and the value that a line stands for. */
  function PairOf(line: FieldLine): Pair
    requires line.Legal()
  {
    match line
    case Indexed(i) => Pair(StaticTable.Name(i), StaticTable.Value(i))
    case Reference(i, v) => Pair(StaticTable.Name(i), v)
    case Named(n, v) => Pair(n, v)
  }

  function Pairs(lines: seq<FieldLine>): seq<Pair>
    requires Legal(lines)
  {
    if lines == [] then [] else [PairOf(lines[0])] + Pairs(lines[1..])
  }

  /** The parts after all pairs in order, by their names alone. */
  function PairsMeaning(pairs: seq<Pair>, parts: Parts): Outcome {
    if pairs == [] then Parsed(parts)
    else
      match SetField(HeaderByName(pairs[0].name), parts, pairs[0].value)
      case None => Rejected
      case Some(p) => PairsMeaning(pairs[1..], p)
  }

  /** The form of the lines does not matter: a block means what its text means, unless
      it indexes the range entry. */
  lemma {:induction false} BlockMeansItsText(lines: seq<FieldLine>, parts: Parts)
    requires Legal(lines) && Indexed(55) !in lines
    ensures Meaning(lines, parts) == PairsMeaning(Pairs(lines), parts)
  {
    hide SetField, SetStatic, HeaderByName, StaticHeader, StaticTable.Name, StaticTable.Value;
    if lines != [] {
      LineMeansItsText(lines[0], parts);
      var p := lines[0].Apply(parts);
      if p.Some? { BlockMeansItsText(lines[1..], p.value); }
      assert Pairs(lines)[1..] == Pairs(lines[1..]);
    }
  }

  lemma LineMeansItsText(line: FieldLine, parts: Parts)
    requires line.Legal() && line != Indexed(55)
    ensures line.Apply(parts) == SetField(HeaderByName(PairOf(line).name), parts, PairOf(line).value)
  {
    hide SetField, SetStatic, HeaderByName, StaticHeader, StaticTable.Name, StaticTable.Value;
    match line
    case Indexed(i) => StaticTable.IndexMeansText(i, parts);
    case Reference(i, v) => StaticTable.HeaderOfEntry(i);
    case Named(n, v) =>
  }

  /** Parsing a block gives the meaning of its text. */
  lemma ParseGivesText(lines: seq<FieldLine>)
    requires Legal(lines) && Indexed(55) !in lines
    ensures ParseBlock(Block(lines)) == PairsMeaning(Pairs(lines), NO_PARTS)
  {
    ParseInvertsBlock(lines);
    BlockMeansItsText(lines, NO_PARTS);
  }

  // ------------------------------------------------- the text of the builders

  function Given(name: string, value: Option<Bytes>): seq<Pair> {
    match value
    case None => []
    case Some(v) => [Pair(Ascii(name), v)]
  }

  function Text(name: string, value: string): Pair {
    Pair(Ascii(name), Ascii(value))
  }

  lemma {:induction false} PairsAppend(a: seq<FieldLine>, b: seq<FieldLine>)
    requires Legal(a) && Legal(b)
    ensures Legal(a + b) && Pairs(a + b) == Pairs(a) + Pairs(b)
  {
    if a == [] {
      assert a + b == b;
    } else {
      assert (a + b)[1..] == a[1..] + b;
      PairsAppend(a[1..], b);
    }
  }

  lemma PairsOfOne(line: FieldLine)
    requires line.Legal()
    ensures Legal([line]) && Pairs([line]) == [PairOf(line)]
  {
    assert [line][1..] == [];
  }

  lemma PairsOfGiven(code: nat, name: string, value: Option<Bytes>)
    requires code < STATIC_ENTRIES && StaticTable.Name(code) == Ascii(name) && SizedOption(value)
    ensures Legal(IfGiven(code, value)) && Pairs(IfGiven(code, value)) == Given(name, value)
  {
    hide StaticTable.Name, Ascii;
    if value.Some? { PairsOfOne(Reference(code, value.value)); }
  }

  lemma NamesOfCodes()
    ensures StaticTable.Name(CODE_AUTHORITY) == Ascii(":authority") && StaticTable.Name(CODE_PATH) == Ascii(":path")
    ensures StaticTable.Name(CODE_RANGE) == Ascii("range") && StaticTable.Name(CODE_ORIGIN) == Ascii("origin")
    ensures StaticTable.Name(CODE_USER_AGENT) == Ascii("user-agent")
    ensures StaticTable.Name(CODE_SERVER) == Ascii("server")
    ensures StaticTable.Name(CODE_ALLOW) == Ascii("access-control-allow-methods")
    ensures StaticTable.Name(CODE_404) == Ascii(":status")
  {
    hide Ascii;
  }

  lemma IndexedRequestTexts()
    ensures PairOf(Indexed(CODE_GET)) == Text(":method", "GET")
    ensures PairOf(Indexed(CODE_POST)) == Text(":method", "POST")
    ensures PairOf(Indexed(CODE_CONNECT)) == Text(":method", "CONNECT")
    ensures PairOf(Indexed(CODE_HTTPS)) == Text(":scheme", "https")
  {
    hide Ascii;
  }

  lemma IndexedStatusTexts()
    ensures PairOf(Indexed(CODE_200)) == Text(":status", "200")
    ensures PairOf(Indexed(CODE_404)) == Text(":status", "404")
  {
    hide Ascii;
  }

  /** The first lines of a request. */
  lemma PairsOfStart(code: nat, path: Bytes)
    requires code < STATIC_ENTRIES && Sized(path)
    ensures var lines := [Indexed(code), Indexed(CODE_HTTPS), Reference(CODE_PATH, path)];
            && Legal(lines)
            && Pairs(lines) == [PairOf(Indexed(code)), Text(":scheme", "https"), Pair(Ascii(":path"), path)]
  {
    NamesOfCodes();
    IndexedRequestTexts();
    hide StaticTable.Name, StaticTable.Value, Ascii;
    var a, b, c := Indexed(code), Indexed(CODE_HTTPS), Reference(CODE_PATH, path);
    PairsOfOne(a);
    PairsOfOne(b);
    PairsOfOne(c);
    PairsAppend([a], [b]);
    PairsAppend([a] + [b], [c]);
    assert [a] + [b] + [c] == [a, b, c];
  }

  function GivenRange(range: Bytes): seq<Pair> {
    Given("range", if range == [] then None else Some(range))
  }

  lemma PairsOfRange(range: Bytes)
    requires Sized(range)
    ensures Legal(IfRange(range)) && Pairs(IfRange(range)) == GivenRange(range)
  {
    NamesOfCodes();
    hide StaticTable.Name, Ascii;
    if range != [] { PairsOfOne(Reference(CODE_RANGE, range)); }
  }

  /** The GET request. */
  lemma RequestText(path: Bytes, range: Bytes, host: Option<Bytes>, ua: Option<Bytes>)
    requires Sized(path) && Sized(range) && SizedOption(host) && SizedOption(ua)
    ensures var lines := RequestLines(path, range, host, ua);
            && Legal(lines)
            && Pairs(lines) == [Text(":method", "GET"), Text(":scheme", "https"), Pair(Ascii(":path"), path)]
                               + Given(":authority", host) + GivenRange(range) + Given("user-agent", ua)
  {
    NamesOfCodes();
    IndexedRequestTexts();
    hide StaticTable.Name, StaticTable.Value, Ascii, Text, Pairs, Legal, IfGiven, Given, IfRange, GivenRange, PairOf;
    PairsOfStart(CODE_GET, path);
    PairsOfGiven(CODE_AUTHORITY, ":authority", host);
    PairsOfRange(range);
    PairsOfGiven(CODE_USER_AGENT, "user-agent", ua);
    var start := [Indexed(CODE_GET), Indexed(CODE_HTTPS), Reference(CODE_PATH, path)];
    PairsAppend(start, IfGiven(CODE_AUTHORITY, host));
    PairsAppend(start + IfGiven(CODE_AUTHORITY, host), IfRange(range));
    PairsAppend(start + IfGiven(CODE_AUTHORITY, host) + IfRange(range), IfGiven(CODE_USER_AGENT, ua));
  }

  /** The entry of a content type has its name and its text. */
  ghost predicate TypeEntry(ct: ContentType) {
    var code := ContentTypeCode(ct);
    code.Some? && code.value < STATIC_ENTRIES
    && PairOf(Indexed(code.value)) == Text("content-type", StaticTable.TypeText(ct))
  }

  lemma ImageOrTextEntry(ct: ContentType)
    requires ct.ImageGif? || ct.ImageJpeg? || ct.ImagePng? || ct.TextCss? || ct.TextHtml? || ct.TextPlain?
    ensures TypeEntry(ct)
  {
    hide Ascii;
  }

  lemma ApplicationEntry(ct: ContentType)
    requires ct.DnsMessage? || ct.Javascript? || ct.Json? || ct.FormUrlencoded?
    ensures TypeEntry(ct)
  {
    hide Ascii;
  }

  lemma PairsOfType(ct: ContentType)
    requires ct != NoContentType && ct != ContentTypeNotSupported
    ensures ContentTypeCode(ct).Some?
    ensures var line := Indexed(ContentTypeCode(ct).value);
            line.Legal() && PairOf(line) == Text("content-type", StaticTable.TypeText(ct))
  {
    hide Ascii, Text, PairOf, StaticTable.TypeText, ContentTypeCode;
    if ct.DnsMessage? || ct.Javascript? || ct.Json? || ct.FormUrlencoded? {
      ApplicationEntry(ct);
    } else {
      ImageOrTextEntry(ct);
    }
  }

  /** The POST request is the GET request with another method and a content type. */
  lemma PostText(path: Bytes, range: Bytes, host: Option<Bytes>, ct: ContentType, ua: Option<Bytes>)
    requires Sized(path) && Sized(range) && SizedOption(host) && SizedOption(ua)
    requires ct != NoContentType && ct != ContentTypeNotSupported
    ensures var lines := PostLines(path, range, host, ContentTypeCode(ct).value, ua);
            && Legal(lines)
            && Pairs(lines) == [Text(":method", "POST"), Text(":scheme", "https"), Pair(Ascii(":path"), path)]
                               + Given(":authority", host) + GivenRange(range) + Given("user-agent", ua)
                               + [Text("content-type", StaticTable.TypeText(ct))]
  {
    NamesOfCodes();
    IndexedRequestTexts();
    PairsOfType(ct);
    hide StaticTable.Name, StaticTable.Value, Ascii, Text, Pairs, Legal, IfGiven, Given, IfRange, GivenRange, PairOf;
    hide StaticTable.TypeText, ContentTypeCode;
    var code := ContentTypeCode(ct).value;
    PairsOfStart(CODE_POST, path);
    PairsOfGiven(CODE_AUTHORITY, ":authority", host);
    PairsOfRange(range);
    PairsOfGiven(CODE_USER_AGENT, "user-agent", ua);
    PairsOfOne(Indexed(code));
    var start := [Indexed(CODE_POST), Indexed(CODE_HTTPS), Reference(CODE_PATH, path)];
    PairsAppend(start, IfGiven(CODE_AUTHORITY, host));
    PairsAppend(start + IfGiven(CODE_AUTHORITY, host), IfRange(range));
    var most := start + IfGiven(CODE_AUTHORITY, host) + IfRange(range);
    PairsAppend(most, IfGiven(CODE_USER_AGENT, ua));
    PairsAppend(most + IfGiven(CODE_USER_AGENT, ua), [Indexed(code)]);
  }

  lemma PairsOfProtocol(protocol: Option<Bytes>)
    requires SizedOption(protocol)
    ensures Legal(IfProtocol(protocol)) && Pairs(IfProtocol(protocol)) == Given(":protocol", protocol)
  {
    assert Sized(Ascii(":protocol"));
    hide Ascii;
    if protocol.Some? { PairsOfOne(Named(Ascii(":protocol"), protocol.value)); }
  }

  /** The extended CONNECT of a WebTransport session. */
  lemma ConnectText(authority: Option<Bytes>, path: Bytes, protocol: Option<Bytes>, origin: Option<Bytes>,
                    ua: Option<Bytes>)
    requires Sized(path) && SizedOption(authority) && SizedOption(protocol) && SizedOption(origin) && SizedOption(ua)
    ensures var lines := ConnectLines(authority, path, protocol, origin, ua);
            && Legal(lines)
            && Pairs(lines) == [Text(":method", "CONNECT"), Text(":scheme", "https"), Pair(Ascii(":path"), path)]
                               + Given(":protocol", protocol) + Given(":authority", authority)
                               + Given("origin", origin) + Given("user-agent", ua)
  {
    NamesOfCodes();
    IndexedRequestTexts();
    hide StaticTable.Name, StaticTable.Value, Ascii, Text, Pairs, Legal, IfGiven, Given, IfProtocol, PairOf;
    PairsOfStart(CODE_CONNECT, path);
    PairsOfProtocol(protocol);
    PairsOfGiven(CODE_AUTHORITY, ":authority", authority);
    PairsOfGiven(CODE_ORIGIN, "origin", origin);
    PairsOfGiven(CODE_USER_AGENT, "user-agent", ua);
    var start := [Indexed(CODE_CONNECT), Indexed(CODE_HTTPS), Reference(CODE_PATH, path)];
    PairsAppend(start, IfProtocol(protocol));
    PairsAppend(start + IfProtocol(protocol), IfGiven(CODE_AUTHORITY, authority));
    var most := start + IfProtocol(protocol) + IfGiven(CODE_AUTHORITY, authority);
    PairsAppend(most, IfGiven(CODE_ORIGIN, origin));
    PairsAppend(most + IfGiven(CODE_ORIGIN, origin), IfGiven(CODE_USER_AGENT, ua));
  }

  /** The response: status 200, the server and the content type if there is one. */
  lemma ResponseText(ct: ContentType, server: Option<Bytes>)
    requires ct != ContentTypeNotSupported && SizedOption(server)
    ensures var lines := ResponseLines(ct, server);
            && Legal(lines)
            && Pairs(lines) == [Text(":status", "200")] + Given("server", server)
                               + (if ct == NoContentType then []
                                  else [Text("content-type", StaticTable.TypeText(ct))])
  {
    NamesOfCodes();
    IndexedStatusTexts();
    if ct != NoContentType { PairsOfType(ct); }
    hide StaticTable.Name, StaticTable.Value, Ascii, Text, Pairs, Legal, IfGiven, Given, PairOf;
    hide StaticTable.TypeText, ContentTypeCode;
    var start := [Indexed(CODE_200)];
    PairsOfOne(Indexed(CODE_200));
    PairsOfGiven(CODE_SERVER, "server", server);
    PairsAppend(start, IfGiven(CODE_SERVER, server));
    if ct != NoContentType {
      var line := Indexed(ContentTypeCode(ct).value);
      PairsOfOne(line);
      PairsAppend(start + IfGiven(CODE_SERVER, server), [line]);
    }
  }

  function ErrorLines(code: Bytes, server: Option<Bytes>): seq<FieldLine>
    requires |code| >= 3
  {
    [if code == Ascii("404") then Indexed(CODE_404) else Reference(CODE_404, code[..3])]
    + (IfGiven(CODE_SERVER, server) + IfAllow(code))
  }

  lemma PairsOfAllow(code: Bytes)
    ensures Legal(IfAllow(code))
    ensures Pairs(IfAllow(code))
         == if code == Ascii("405") then [Text("access-control-allow-methods", "GET, POST, CONNECT")] else []
  {
    NamesOfCodes();
    var allowed := Ascii("GET, POST, CONNECT");
    assert Sized(allowed);
    hide Ascii, StaticTable.Name;
    if code == Ascii("405") { PairsOfOne(Reference(CODE_ALLOW, allowed)); }
  }

  lemma PairsOfStatus(code: Bytes)
    requires |code| >= 3
    ensures var line := if code == Ascii("404") then Indexed(CODE_404) else Reference(CODE_404, code[..3]);
            line.Legal() && PairOf(line) == Pair(Ascii(":status"), code[..3])
  {
    NamesOfCodes();
    IndexedStatusTexts();
    assert |Ascii("404")| == 3;
    hide Ascii, StaticTable.Name, StaticTable.Value;
    if code == Ascii("404") { assert code[..3] == code; }
  }

  /** The error response with room for its status: three digits, the server, and for 405 the methods. */
  lemma ErrorTextMeans(code: Bytes, server: Option<Bytes>, room: nat)
    requires |code| >= 3 && SizedOption(server) && (code == Ascii("404") || room >= 8)
    ensures var lines := ErrorLines(code, server);
            && ErrorText(code, server, room) == Block(lines)
            && Legal(lines)
            && Pairs(lines) == [Pair(Ascii(":status"), code[..3])] + Given("server", server)
                               + (if code == Ascii("405")
                                  then [Text("access-control-allow-methods", "GET, POST, CONNECT")] else [])
  {
    NamesOfCodes();
    PairsOfStatus(code);
    PairsOfAllow(code);
    ErrorTextWithRoom(code, server, room);
    hide StaticTable.Name, StaticTable.Value, Ascii, Text, Pairs, Legal, IfGiven, Given, PairOf, IfAllow;
    hide ErrorText, Block, QpackBuilder.Text;
    var first := if code == Ascii("404") then Indexed(CODE_404) else Reference(CODE_404, code[..3]);
    var tail := IfGiven(CODE_SERVER, server) + IfAllow(code);
    BlockGrows([first], tail);
    PairsOfOne(first);
    PairsOfGiven(CODE_SERVER, "server", server);
    PairsAppend(IfGiven(CODE_SERVER, server), IfAllow(code));
    PairsAppend([first], tail);
  }
}
