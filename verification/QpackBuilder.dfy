/** The header block builders of the client and the server, and the round trip
    through the parser: what was put in comes out, the rest is ignored. */
module QpackBuilder {
  import opened Bytes
  import opened Qpack
  import opened Writer
  import PrefixInt
  import Status

  const CODE_PATH: nat := 1
  const CODE_AUTHORITY: nat := 0
  const CODE_CONNECT: nat := 15
  const CODE_GET: nat := 17
  const CODE_POST: nat := 20
  const CODE_HTTPS: nat := 23
  const CODE_200: nat := 25
  const CODE_404: nat := 27
  const CODE_RANGE: nat := 55
  const CODE_ALLOW: nat := 76
  const CODE_ORIGIN: nat := 90
  const CODE_SERVER: nat := 92
  const CODE_USER_AGENT: nat := 95

  // ------------------------------------------------------ writing at a cursor

  /** h3zero_qpack_code_encode */
  method CodeEncode(buf: array<Byte>, bytes: Cursor, max: nat, prefix: Byte, mask: Byte, code: nat)
    returns (next: Cursor)
    requires max <= buf.Length && (bytes.At? ==> bytes.pos <= max) && PrefixInt.Disjoint(prefix, mask)
    modifies buf
    ensures Wrote(old(buf[..]), buf[..], bytes, max, PrefixInt.Encode(prefix, mask, code), next)
    ensures bytes.Null? ==> buf[..] == old(buf[..])
  {
    next := bytes;
    if bytes.At? {
      if bytes.pos + 1 > max {
        next := Null;
      } else {
        buf[bytes.pos] := prefix;
        next := PrefixInt.IntEncode(buf, bytes, max, mask, code);
      }
    }
  }

  /** h3zero_qpack_literal_plus_ref_encode */
  method LiteralPlusRefEncode(buf: array<Byte>, bytes: Cursor, max: nat, code: nat, val: Bytes) returns (next: Cursor)
    requires max <= buf.Length && (bytes.At? ==> bytes.pos <= max)
    modifies buf
    ensures Wrote(old(buf[..]), buf[..], bytes, max, ReferenceLine(code, val), next)
    ensures bytes.Null? ==> buf[..] == old(buf[..])
  {
    ghost var b0 := buf[..];
    var p1 := CodeEncode(buf, bytes, max, 0x50, 0x0F, code);
    ghost var b1 := buf[..];
    var p2 := CodeEncode(buf, p1, max, 0x00, 0x7F, |val|);
    ghost var b2 := buf[..];
    next := PutOctets(buf, p2, max, val);
    hide Wrote, PrefixInt.Encode;
    WroteBoth(b1, b2, buf[..], p1, p2, next, max, PrefixInt.Encode(0x00, 0x7F, |val|), val);
    WroteBoth(b0, b1, buf[..], bytes, p1, next, max, PrefixInt.Encode(0x50, 0x0F, code), StringLiteral(val));
  }

  /** h3zero_qpack_literal_plus_name_encode */
  method LiteralPlusNameEncode(buf: array<Byte>, bytes: Cursor, max: nat, name: Bytes, val: Bytes)
    returns (next: Cursor)
    requires max <= buf.Length && (bytes.At? ==> bytes.pos <= max)
    modifies buf
    ensures Wrote(old(buf[..]), buf[..], bytes, max, NamedLine(name, val), next)
    ensures bytes.Null? ==> buf[..] == old(buf[..])
  {
    ghost var b0 := buf[..];
    var p1 := CodeEncode(buf, bytes, max, 0x20, 0x07, |name|);
    ghost var b1 := buf[..];
    var p2 := PutOctets(buf, p1, max, name);
    ghost var b2 := buf[..];
    var p3 := CodeEncode(buf, p2, max, 0x00, 0x7F, |val|);
    ghost var b3 := buf[..];
    next := PutOctets(buf, p3, max, val);
    hide Wrote, PrefixInt.Encode;
    WroteBoth(b2, b3, buf[..], p2, p3, next, max, PrefixInt.Encode(0x00, 0x7F, |val|), val);
    WroteBoth(b0, b1, b2, bytes, p1, p2, max, PrefixInt.Encode(0x20, 0x07, |name|), name);
    WroteBoth(b0, b2, buf[..], bytes, p2, next, max, PrefixInt.Encode(0x20, 0x07, |name|) + name, StringLiteral(val));
  }

  // ------------------------------------------------------------ field lines

  datatype FieldLine = Indexed(index: nat) | Reference(index: nat, value: Bytes) | Named(name: Bytes, value: Bytes)
  {
    function Text(): Bytes {
      match this
      case Indexed(i) => IndexedLine(i)
      case Reference(i, v) => ReferenceLine(i, v)
      case Named(n, v) => NamedLine(n, v)
    }

    /** The index is in the table and the strings fit in an address space. */
    predicate Legal() {
      match this
      case Indexed(i) => i < STATIC_ENTRIES
      case Reference(i, v) => i < STATIC_ENTRIES && Sized(v)
      case Named(n, v) => Sized(n) && Sized(v)
    }

    /** What the line means for the parts. */
    function Apply(parts: Parts): Option<Parts>
      requires Legal()
    {
      match this
      case Indexed(i) => SetStatic(i, parts)
      case Reference(i, v) => SetField(StaticHeader(i), parts, v)
      case Named(n, v) => SetField(HeaderByName(n), parts, v)
    }
  }

  function Text(lines: seq<FieldLine>): Bytes {
    if lines == [] then [] else lines[0].Text() + Text(lines[1..])
  }

  function Block(lines: seq<FieldLine>): Bytes {
    [0, 0] + Text(lines)
  }

  predicate Legal(lines: seq<FieldLine>) {
    forall line | line in lines :: line.Legal()
  }

  /** The parts after all lines in order; a duplicate field has no meaning. */
  function Meaning(lines: seq<FieldLine>, parts: Parts): Outcome
    requires Legal(lines)
  {
    if lines == [] then Parsed(parts)
    else
      match lines[0].Apply(parts)
      case None => Rejected
      case Some(p) => Meaning(lines[1..], p)
  }

  lemma {:induction false} TextAppend(a: seq<FieldLine>, b: seq<FieldLine>)
    ensures Text(a + b) == Text(a) + Text(b)
  {
    if a == [] {
      assert a + b == b;
    } else {
      hide FieldLine.Text;
      var t := a[0].Text();
      assert (a + b)[0] == a[0] && (a + b)[1..] == a[1..] + b;
      assert Text(a + b) == t + Text(a[1..] + b);
      TextAppend(a[1..], b);
      assert t + (Text(a[1..]) + Text(b)) == (t + Text(a[1..])) + Text(b);
    }
  }

  lemma ParseFieldLine(line: FieldLine, rest: Bytes, parts: Parts)
    requires line.Legal()
    ensures line.Text() != []
    ensures ParseLine(line.Text() + rest, parts)
         == match line.Apply(parts) case None => Failed case Some(p) => Next(p, |line.Text()|)
  {
    hide ParseLine, SetField, SetStatic, StaticHeader, HeaderByName;
    match line
    case Indexed(i) => ParseIndexedLine(i, rest, parts);
    case Reference(i, v) => ParseReferenceLine(i, v, rest, parts);
    case Named(n, v) => ParseNamedLine(n, v, rest, parts);
  }

  lemma {:induction false} ParseText(lines: seq<FieldLine>, parts: Parts)
    requires Legal(lines)
    ensures ParseLines(Text(lines), parts) == Meaning(lines, parts)
  {
    if lines != [] {
      hide ParseLine;
      var rest := Text(lines[1..]);
      var b := lines[0].Text() + rest;
      ParseFieldLine(lines[0], rest, parts);
      hide FieldLine.Text, FieldLine.Apply;
      assert b[|lines[0].Text()|..] == rest;
      if lines[0].Apply(parts).Some? {
        ParseText(lines[1..], lines[0].Apply(parts).value);
      }
    }
  }

  /** The parser undoes the encoder for every list of field lines. */
  lemma ParseInvertsBlock(lines: seq<FieldLine>)
    requires Legal(lines)
    ensures ParseBlock(Block(lines)) == Meaning(lines, NO_PARTS)
  {
    var b := Block(lines);
    assert PrefixInt.Decode(b[1..], 0x7F) == PrefixInt.Good(0, 1);
    assert b[2..] == Text(lines);
    ParseText(lines, NO_PARTS);
  }

  // ----------------------------------------------------------- the builders

  function IfGiven(code: nat, val: Option<Bytes>): seq<FieldLine> {
    match val
    case None => []
    case Some(v) => [Reference(code, v)]
  }

  function IfRange(range: Bytes): seq<FieldLine> {
    if range == [] then [] else [Reference(CODE_RANGE, range)]
  }

  function IfProtocol(protocol: Option<Bytes>): seq<FieldLine> {
    match protocol
    case None => []
    case Some(v) => [Named(Ascii(":protocol"), v)]
  }

  /** The first static entry of a content type, as the search of the table finds it. */
  function ContentTypeCode(ct: ContentType): Option<nat> {
    match ct
    case NoContentType => None
    case ContentTypeNotSupported => None
    case DnsMessage => Some(44)
    case Javascript => Some(45)
    case Json => Some(46)
    case FormUrlencoded => Some(47)
    case ImageGif => Some(48)
    case ImageJpeg => Some(49)
    case ImagePng => Some(50)
    case TextCss => Some(51)
    case TextHtml => Some(52)
    case TextPlain => Some(53)
  }

  function RequestLines(path: Bytes, range: Bytes, host: Option<Bytes>, ua: Option<Bytes>): seq<FieldLine> {
    [Indexed(CODE_GET), Indexed(CODE_HTTPS), Reference(CODE_PATH, path)]
    + IfGiven(CODE_AUTHORITY, host) + IfRange(range) + IfGiven(CODE_USER_AGENT, ua)
  }

  function PostLines(path: Bytes, range: Bytes, host: Option<Bytes>, code: nat, ua: Option<Bytes>): seq<FieldLine> {
    [Indexed(CODE_POST), Indexed(CODE_HTTPS), Reference(CODE_PATH, path)]
    + IfGiven(CODE_AUTHORITY, host) + IfRange(range) + IfGiven(CODE_USER_AGENT, ua) + [Indexed(code)]
  }

  function ConnectLines(authority: Option<Bytes>, path: Bytes, protocol: Option<Bytes>, origin: Option<Bytes>,
                        ua: Option<Bytes>): seq<FieldLine> {
    [Indexed(CODE_CONNECT), Indexed(CODE_HTTPS), Reference(CODE_PATH, path)]
    + IfProtocol(protocol) + IfGiven(CODE_AUTHORITY, authority) + IfGiven(CODE_ORIGIN, origin)
    + IfGiven(CODE_USER_AGENT, ua)
  }

  function ResponseLines(docType: ContentType, server: Option<Bytes>): seq<FieldLine>
    requires docType != ContentTypeNotSupported
  {
    [Indexed(CODE_200)] + IfGiven(CODE_SERVER, server)
    + (if docType == NoContentType then [] else [Indexed(ContentTypeCode(docType).value)])
  }

  lemma {:induction false} MeaningAppend(a: seq<FieldLine>, b: seq<FieldLine>, parts: Parts)
    requires Legal(a) && Legal(b)
    ensures Legal(a + b)
    ensures Meaning(a + b, parts)
         == match Meaning(a, parts) case Parsed(p) => Meaning(b, p) case _ => Rejected
  {
    if a == [] {
      assert a + b == b;
    } else {
      assert (a + b)[1..] == a[1..] + b;
      if a[0].Apply(parts).Some? { MeaningAppend(a[1..], b, a[0].Apply(parts).value); }
    }
  }

  lemma MeaningOfIgnored(code: nat, val: Option<Bytes>, parts: Parts)
    requires code < STATIC_ENTRIES && (StaticHeader(code) == OtherH || StaticHeader(code) == OriginH)
    requires val.Some? ==> Sized(val.value)
    ensures Legal(IfGiven(code, val)) && Meaning(IfGiven(code, val), parts) == Parsed(parts)
  {
    if val.Some? { MeaningOfOne(Reference(code, val.value), parts); }
  }

  lemma MeaningOfOne(line: FieldLine, parts: Parts)
    requires line.Legal()
    ensures Legal([line])
    ensures Meaning([line], parts) == match line.Apply(parts) case None => Rejected case Some(p) => Parsed(p)
  {
    assert [line][1..] == [];
  }

  lemma MeaningOfRange(range: Bytes, parts: Parts)
    requires Sized(range) && parts.range == None
    ensures Legal(IfRange(range))
    ensures Meaning(IfRange(range), parts) == Parsed(parts.(range := if range == [] then None else Some(range)))
  {
    if range != [] { MeaningOfOne(Reference(CODE_RANGE, range), parts); }
  }

  lemma MeaningOfProtocol(protocol: Option<Bytes>, parts: Parts)
    requires (protocol.Some? ==> Sized(protocol.value)) && parts.protocol == None
    ensures Legal(IfProtocol(protocol))
    ensures Meaning(IfProtocol(protocol), parts) == Parsed(parts.(protocol := protocol))
  {
    if protocol.Some? { MeaningOfOne(Named(Ascii(":protocol"), protocol.value), parts); }
    var name := Ascii(":protocol");
    assert |name| == 9 && |Ascii(":method")| == 7 && |Ascii(":path")| == 5 && |Ascii(":status")| == 7;
    assert |Ascii("content-type")| == 12;
    assert HeaderByName(name) == ProtocolH;
  }

  /** The lines every request starts with: method, scheme and path. */
  lemma MeaningOfRequestStart(code: nat, path: Bytes)
    requires 15 <= code <= 21 && Sized(path)
    ensures var lines := [Indexed(code), Indexed(CODE_HTTPS), Reference(CODE_PATH, path)];
            && Legal(lines)
            && Meaning(lines, NO_PARTS) == Parsed(NO_PARTS.(verb := StaticMethod(code), path := Some(path)))
  {
    var a, b, c := Indexed(code), Indexed(CODE_HTTPS), Reference(CODE_PATH, path);
    var p := NO_PARTS.(verb := StaticMethod(code));
    MeaningOfOne(a, NO_PARTS);
    MeaningOfOne(b, p);
    MeaningOfOne(c, p);
    MeaningAppend([a], [b], NO_PARTS);
    MeaningAppend([a] + [b], [c], NO_PARTS);
    assert [a] + [b] + [c] == [a, b, c];
  }

  predicate SizedOption(s: Option<Bytes>) {
    s.Some? ==> Sized(s.value)
  }

  /** GET: path and range come back; authority and user agent are ignored. */
  lemma RequestRoundTrip(path: Bytes, range: Bytes, host: Option<Bytes>, ua: Option<Bytes>)
    requires Sized(path) && Sized(range) && SizedOption(host) && SizedOption(ua)
    ensures ParseBlock(Block(RequestLines(path, range, host, ua)))
         == Parsed(Parts(Get, Some(path), if range == [] then None else Some(range), 0, NoContentType, None))
  {
    var l0 := [Indexed(CODE_GET), Indexed(CODE_HTTPS), Reference(CODE_PATH, path)];
    var p0 := NO_PARTS.(verb := Get, path := Some(path));
    var p1 := p0.(range := if range == [] then None else Some(range));
    MeaningOfRequestStart(CODE_GET, path);
    MeaningOfIgnored(CODE_AUTHORITY, host, p0);
    MeaningOfRange(range, p0);
    MeaningOfIgnored(CODE_USER_AGENT, ua, p1);
    hide *;
    MeaningAppend(l0, IfGiven(CODE_AUTHORITY, host), NO_PARTS);
    MeaningAppend(l0 + IfGiven(CODE_AUTHORITY, host), IfRange(range), NO_PARTS);
    MeaningAppend(l0 + IfGiven(CODE_AUTHORITY, host) + IfRange(range), IfGiven(CODE_USER_AGENT, ua), NO_PARTS);
    ParseInvertsBlock(l0 + IfGiven(CODE_AUTHORITY, host) + IfRange(range) + IfGiven(CODE_USER_AGENT, ua));
  }

  /** POST: path, range and content type come back. */
  lemma PostRoundTrip(path: Bytes, range: Bytes, host: Option<Bytes>, contentType: ContentType, ua: Option<Bytes>)
    requires Sized(path) && Sized(range) && SizedOption(host) && SizedOption(ua)
    requires ContentTypeCode(contentType).Some?
    ensures ParseBlock(Block(PostLines(path, range, host, ContentTypeCode(contentType).value, ua)))
         == Parsed(Parts(Post, Some(path), if range == [] then None else Some(range), 0, contentType, None))
  {
    var code := ContentTypeCode(contentType).value;
    var l0 := [Indexed(CODE_POST), Indexed(CODE_HTTPS), Reference(CODE_PATH, path)];
    var p0 := NO_PARTS.(verb := Post, path := Some(path));
    var p1 := p0.(range := if range == [] then None else Some(range));
    MeaningOfRequestStart(CODE_POST, path);
    MeaningOfIgnored(CODE_AUTHORITY, host, p0);
    MeaningOfRange(range, p0);
    MeaningOfIgnored(CODE_USER_AGENT, ua, p1);
    MeaningOfContentType(contentType, p1);
    hide *;
    MeaningAppend(l0, IfGiven(CODE_AUTHORITY, host), NO_PARTS);
    MeaningAppend(l0 + IfGiven(CODE_AUTHORITY, host), IfRange(range), NO_PARTS);
    MeaningAppend(l0 + IfGiven(CODE_AUTHORITY, host) + IfRange(range), IfGiven(CODE_USER_AGENT, ua), NO_PARTS);
    var lines := l0 + IfGiven(CODE_AUTHORITY, host) + IfRange(range) + IfGiven(CODE_USER_AGENT, ua);
    MeaningAppend(lines, [Indexed(code)], NO_PARTS);
    ParseInvertsBlock(lines + [Indexed(code)]);
  }

  lemma MeaningOfContentType(contentType: ContentType, parts: Parts)
    requires ContentTypeCode(contentType).Some? && parts.contentType == NoContentType
    ensures var line := Indexed(ContentTypeCode(contentType).value);
            Legal([line]) && Meaning([line], parts) == Parsed(parts.(contentType := contentType))
  {
    MeaningOfOne(Indexed(ContentTypeCode(contentType).value), parts);
  }

  /** CONNECT: path and protocol come back; authority, origin and user agent are ignored. */
  lemma ConnectRoundTrip(authority: Option<Bytes>, path: Bytes, protocol: Option<Bytes>, origin: Option<Bytes>,
                         ua: Option<Bytes>)
    requires Sized(path) && SizedOption(authority) && SizedOption(protocol) && SizedOption(origin) && SizedOption(ua)
    ensures ParseBlock(Block(ConnectLines(authority, path, protocol, origin, ua)))
         == Parsed(Parts(Connect, Some(path), None, 0, NoContentType, protocol))
  {
    var l0 := [Indexed(CODE_CONNECT), Indexed(CODE_HTTPS), Reference(CODE_PATH, path)];
    var p0 := NO_PARTS.(verb := Connect, path := Some(path));
    var p1 := p0.(protocol := protocol);
    MeaningOfRequestStart(CODE_CONNECT, path);
    MeaningOfProtocol(protocol, p0);
    MeaningOfIgnored(CODE_AUTHORITY, authority, p1);
    MeaningOfIgnored(CODE_ORIGIN, origin, p1);
    MeaningOfIgnored(CODE_USER_AGENT, ua, p1);
    hide *;
    MeaningAppend(l0, IfProtocol(protocol), NO_PARTS);
    MeaningAppend(l0 + IfProtocol(protocol), IfGiven(CODE_AUTHORITY, authority), NO_PARTS);
    var l1 := l0 + IfProtocol(protocol) + IfGiven(CODE_AUTHORITY, authority);
    MeaningAppend(l1, IfGiven(CODE_ORIGIN, origin), NO_PARTS);
    MeaningAppend(l1 + IfGiven(CODE_ORIGIN, origin), IfGiven(CODE_USER_AGENT, ua), NO_PARTS);
    ParseInvertsBlock(l1 + IfGiven(CODE_ORIGIN, origin) + IfGiven(CODE_USER_AGENT, ua));
  }

  /** 200 response: status and content type come back; the server string is ignored. */
  lemma ResponseRoundTrip(docType: ContentType, server: Option<Bytes>)
    requires docType != ContentTypeNotSupported && SizedOption(server)
    ensures ParseBlock(Block(ResponseLines(docType, server)))
         == Parsed(Parts(NoMethod, None, None, 200, docType, None))
  {
    var p0 := NO_PARTS.(status := 200);
    var tail := if docType == NoContentType then [] else [Indexed(ContentTypeCode(docType).value)];
    MeaningOfOne(Indexed(CODE_200), NO_PARTS);
    MeaningOfIgnored(CODE_SERVER, server, p0);
    if docType != NoContentType { MeaningOfContentType(docType, p0); }
    MeaningAppend([Indexed(CODE_200)], IfGiven(CODE_SERVER, server), NO_PARTS);
    MeaningAppend([Indexed(CODE_200)] + IfGiven(CODE_SERVER, server), tail, NO_PARTS);
    ParseInvertsBlock([Indexed(CODE_200)] + IfGiven(CODE_SERVER, server) + tail);
  }

  // ------------------------------------------------- the builders as methods

  lemma BlockGrows(lines: seq<FieldLine>, more: seq<FieldLine>)
    ensures Block(lines + more) == Block(lines) + Text(more)
  {
    TextAppend(lines, more);
  }

  lemma TextOfOne(line: FieldLine)
    ensures Text([line]) == line.Text()
  {
    assert [line][1..] == [];
  }

  /** One more indexed line on a block under construction. */
  method PutIndexed(buf: array<Byte>, bytes: Cursor, max: nat, code: nat,
                    ghost before: Bytes, ghost start: Cursor, ghost lines: seq<FieldLine>) returns (next: Cursor)
    requires max <= buf.Length && Wrote(before, buf[..], start, max, Block(lines), bytes)
    modifies buf
    ensures Wrote(before, buf[..], start, max, Block(lines + [Indexed(code)]), next)
  {
    ghost var b := buf[..];
    next := CodeEncode(buf, bytes, max, 0xC0, 0x3F, code);
    BlockGrows(lines, [Indexed(code)]);
    TextOfOne(Indexed(code));
    hide Wrote, Block, Text;
    WroteBoth(before, b, buf[..], start, bytes, next, max, Block(lines), IndexedLine(code));
  }

  /** One more literal with a name reference, if there is a value. */
  method PutReference(buf: array<Byte>, bytes: Cursor, max: nat, code: nat, val: Option<Bytes>,
                      ghost before: Bytes, ghost start: Cursor, ghost lines: seq<FieldLine>) returns (next: Cursor)
    requires max <= buf.Length && Wrote(before, buf[..], start, max, Block(lines), bytes)
    modifies buf
    ensures Wrote(before, buf[..], start, max, Block(lines + IfGiven(code, val)), next)
  {
    next := bytes;
    match val {
      case None =>
        assert lines + IfGiven(code, val) == lines;
      case Some(v) =>
        ghost var b := buf[..];
        next := LiteralPlusRefEncode(buf, bytes, max, code, v);
        BlockGrows(lines, [Reference(code, v)]);
        TextOfOne(Reference(code, v));
        hide Wrote, Block, Text;
        WroteBoth(before, b, buf[..], start, bytes, next, max, Block(lines), ReferenceLine(code, v));
    }
  }

  method PutProtocol(buf: array<Byte>, bytes: Cursor, max: nat, val: Option<Bytes>,
                     ghost before: Bytes, ghost start: Cursor, ghost lines: seq<FieldLine>) returns (next: Cursor)
    requires max <= buf.Length && Wrote(before, buf[..], start, max, Block(lines), bytes)
    modifies buf
    ensures Wrote(before, buf[..], start, max, Block(lines + IfProtocol(val)), next)
  {
    next := bytes;
    match val {
      case None =>
        assert lines + IfProtocol(val) == lines;
      case Some(v) =>
        ghost var b := buf[..];
        next := LiteralPlusNameEncode(buf, bytes, max, Ascii(":protocol"), v);
        BlockGrows(lines, [Named(Ascii(":protocol"), v)]);
        TextOfOne(Named(Ascii(":protocol"), v));
        hide Wrote, Block, Text, Ascii;
        WroteBoth(before, b, buf[..], start, bytes, next, max, Block(lines), NamedLine(Ascii(":protocol"), v));
    }
  }

  /** The two zero octets every block starts with. */
  method PutPrefix(buf: array<Byte>, bytes: Cursor, max: nat) returns (next: Cursor)
    requires max <= buf.Length && (bytes.At? ==> bytes.pos <= max)
    modifies buf
    ensures Wrote(old(buf[..]), buf[..], bytes, max, Block([]), next)
    ensures bytes.Null? ==> buf[..] == old(buf[..])
  {
    if bytes.Null? || bytes.pos + 2 > max {
      return Null;
    }
    buf[bytes.pos] := 0;
    buf[bytes.pos + 1] := 0;
    next := At(bytes.pos + 2);
  }

  function NonEmpty(s: Bytes): Option<Bytes> {
    if s == [] then None else Some(s)
  }

  /** h3zero_create_request_header_frame_ex */
  method CreateRequestHeaderFrame(buf: array<Byte>, bytes: Cursor, max: nat, path: Bytes, range: Bytes,
                                  host: Option<Bytes>, uaString: Option<Bytes>) returns (next: Cursor)
    requires max <= buf.Length && (bytes.At? ==> bytes.pos <= max)
    modifies buf
    ensures Wrote(old(buf[..]), buf[..], bytes, max, Block(RequestLines(path, range, host, uaString)), next)
  {
    hide Wrote, Block;
    ghost var b := buf[..];
    next := PutPrefix(buf, bytes, max);
    next := PutIndexed(buf, next, max, CODE_GET, b, bytes, []);
    ghost var lines := [] + [Indexed(CODE_GET)];
    next := PutIndexed(buf, next, max, CODE_HTTPS, b, bytes, lines);
    lines := lines + [Indexed(CODE_HTTPS)];
    next := PutReference(buf, next, max, CODE_PATH, Some(path), b, bytes, lines);
    lines := lines + [Reference(CODE_PATH, path)];
    next := PutReference(buf, next, max, CODE_AUTHORITY, host, b, bytes, lines);
    lines := lines + IfGiven(CODE_AUTHORITY, host);
    next := PutReference(buf, next, max, CODE_RANGE, NonEmpty(range), b, bytes, lines);
    lines := lines + IfRange(range);
    next := PutReference(buf, next, max, CODE_USER_AGENT, uaString, b, bytes, lines);
    assert [] + [Indexed(CODE_GET)] + [Indexed(CODE_HTTPS)] + [Reference(CODE_PATH, path)]
        == [Indexed(CODE_GET), Indexed(CODE_HTTPS), Reference(CODE_PATH, path)];
  }

  predicate HasContentType(i: nat, ct: ContentType)
    requires i < STATIC_ENTRIES
  {
    StaticHeader(i) == ContentTypeH && StaticContentType(i) == ct
  }

  /** The search of h3zero_encode_content_type through the static table. */
  method FindContentType(ct: ContentType) returns (code: Option<nat>)
    ensures code == ContentTypeCode(ct)
    ensures code.Some? ==> code.value < STATIC_ENTRIES && HasContentType(code.value, ct)
    ensures code.Some? ==> forall j: nat | j < code.value :: !HasContentType(j, ct)
  {
    code := None;
    var i: nat := 0;
    while i < STATIC_ENTRIES
      invariant i <= STATIC_ENTRIES && code == None
      invariant forall j: nat | j < i :: !HasContentType(j, ct)
    {
      if HasContentType(i, ct) {
        FirstCode(i, ct);
        return Some(i);
      }
      i := i + 1;
    }
    CodeHasType(ct);
  }

  lemma CodeHasType(ct: ContentType)
    ensures ContentTypeCode(ct).Some? ==>
              ContentTypeCode(ct).value < STATIC_ENTRIES && HasContentType(ContentTypeCode(ct).value, ct)
  {
  }

  lemma FirstCode(i: nat, ct: ContentType)
    requires i < STATIC_ENTRIES && HasContentType(i, ct)
    requires forall j: nat | j < i :: !HasContentType(j, ct)
    ensures ContentTypeCode(ct) == Some(i)
  {
    var c := ContentTypeCode(ct).value;
    assert HasContentType(c, ct);
    assert !(c < i);
  }

  /** h3zero_encode_content_type; NULL for a type without a static entry. */
  method PutContentType(buf: array<Byte>, bytes: Cursor, max: nat, ct: ContentType,
                        ghost before: Bytes, ghost start: Cursor, ghost lines: seq<FieldLine>) returns (next: Cursor)
    requires max <= buf.Length && Wrote(before, buf[..], start, max, Block(lines), bytes)
    modifies buf
    ensures ContentTypeCode(ct).None? ==> next == Null
    ensures ContentTypeCode(ct).Some? ==>
              Wrote(before, buf[..], start, max, Block(lines + [Indexed(ContentTypeCode(ct).value)]), next)
  {
    var code := FindContentType(ct);
    if code.None? {
      return Null;
    }
    next := PutIndexed(buf, bytes, max, code.value, before, start, lines);
  }

  /** h3zero_create_post_header_frame_ex */
  method CreatePostHeaderFrame(buf: array<Byte>, bytes: Cursor, max: nat, path: Bytes, range: Bytes,
                               host: Option<Bytes>,
                               contentType: ContentType, uaString: Option<Bytes>) returns (next: Cursor)
    requires max <= buf.Length && (bytes.At? ==> bytes.pos <= max)
    modifies buf
    ensures ContentTypeCode(contentType).None? ==> next == Null
    ensures ContentTypeCode(contentType).Some? ==>
              Wrote(old(buf[..]), buf[..], bytes, max,
                    Block(PostLines(path, range, host, ContentTypeCode(contentType).value, uaString)), next)
  {
    hide Wrote, Block, ContentTypeCode;
    ghost var b := buf[..];
    next := PutPrefix(buf, bytes, max);
    next := PutIndexed(buf, next, max, CODE_POST, b, bytes, []);
    ghost var lines := [] + [Indexed(CODE_POST)];
    next := PutIndexed(buf, next, max, CODE_HTTPS, b, bytes, lines);
    lines := lines + [Indexed(CODE_HTTPS)];
    next := PutReference(buf, next, max, CODE_PATH, Some(path), b, bytes, lines);
    lines := lines + [Reference(CODE_PATH, path)];
    next := PutReference(buf, next, max, CODE_AUTHORITY, host, b, bytes, lines);
    lines := lines + IfGiven(CODE_AUTHORITY, host);
    next := PutReference(buf, next, max, CODE_RANGE, NonEmpty(range), b, bytes, lines);
    lines := lines + IfRange(range);
    next := PutReference(buf, next, max, CODE_USER_AGENT, uaString, b, bytes, lines);
    lines := lines + IfGiven(CODE_USER_AGENT, uaString);
    next := PutContentType(buf, next, max, contentType, b, bytes, lines);
    assert [] + [Indexed(CODE_POST)] + [Indexed(CODE_HTTPS)] + [Reference(CODE_PATH, path)]
        == [Indexed(CODE_POST), Indexed(CODE_HTTPS), Reference(CODE_PATH, path)];
  }

  /** h3zero_create_connect_header_frame */
  method CreateConnectHeaderFrame(buf: array<Byte>, bytes: Cursor, max: nat, authority: Option<Bytes>, path: Bytes,
                                  protocol: Option<Bytes>, origin: Option<Bytes>, uaString: Option<Bytes>)
    returns (next: Cursor)
    requires max <= buf.Length && (bytes.At? ==> bytes.pos <= max)
    modifies buf
    ensures Wrote(old(buf[..]), buf[..], bytes, max,
                  Block(ConnectLines(authority, path, protocol, origin, uaString)), next)
  {
    hide Wrote, Block;
    ghost var b := buf[..];
    next := PutPrefix(buf, bytes, max);
    next := PutIndexed(buf, next, max, CODE_CONNECT, b, bytes, []);
    ghost var lines := [] + [Indexed(CODE_CONNECT)];
    next := PutIndexed(buf, next, max, CODE_HTTPS, b, bytes, lines);
    lines := lines + [Indexed(CODE_HTTPS)];
    next := PutReference(buf, next, max, CODE_PATH, Some(path), b, bytes, lines);
    lines := lines + [Reference(CODE_PATH, path)];
    next := PutProtocol(buf, next, max, protocol, b, bytes, lines);
    lines := lines + IfProtocol(protocol);
    next := PutReference(buf, next, max, CODE_AUTHORITY, authority, b, bytes, lines);
    lines := lines + IfGiven(CODE_AUTHORITY, authority);
    next := PutReference(buf, next, max, CODE_ORIGIN, origin, b, bytes, lines);
    lines := lines + IfGiven(CODE_ORIGIN, origin);
    next := PutReference(buf, next, max, CODE_USER_AGENT, uaString, b, bytes, lines);
    assert [] + [Indexed(CODE_CONNECT)] + [Indexed(CODE_HTTPS)] + [Reference(CODE_PATH, path)]
        == [Indexed(CODE_CONNECT), Indexed(CODE_HTTPS), Reference(CODE_PATH, path)];
  }

  /** h3zero_create_response_header_frame_ex */
  method CreateResponseHeaderFrame(buf: array<Byte>, bytes: Cursor, max: nat, docType: ContentType,
                                   server: Option<Bytes>)
    returns (next: Cursor)
    requires max <= buf.Length && (bytes.At? ==> bytes.pos <= max)
    modifies buf
    ensures docType == ContentTypeNotSupported ==> next == Null
    ensures docType != ContentTypeNotSupported ==>
              Wrote(old(buf[..]), buf[..], bytes, max, Block(ResponseLines(docType, server)), next)
  {
    hide Wrote, Block;
    ghost var b := buf[..];
    next := PutPrefix(buf, bytes, max);
    next := PutIndexed(buf, next, max, CODE_200, b, bytes, []);
    ghost var lines := [] + [Indexed(CODE_200)];
    next := PutReference(buf, next, max, CODE_SERVER, server, b, bytes, lines);
    lines := lines + IfGiven(CODE_SERVER, server);
    assert [] + [Indexed(CODE_200)] == [Indexed(CODE_200)];
    if docType != NoContentType {
      next := PutContentType(buf, next, max, docType, b, bytes, lines);
    } else {
      assert lines + [] == lines;
    }
  }

  // -------------------------------------------------------- the error frame

  /** The name reference that h3zero_create_error_frame writes before the status digits. */
  const STATUS_NAME: Bytes := [0x5F, 0x0C]

  function IfAllow(code: Bytes): seq<FieldLine> {
    if code == Ascii("405") then [Reference(CODE_ALLOW, Ascii("GET, POST, CONNECT"))] else []
  }

  /** What the error builder produces in `room` octets: the status literal is
      dropped, without an error, when its four octets no longer fit. */
  function ErrorText(code: Bytes, server: Option<Bytes>, room: nat): Bytes
    requires |code| >= 3
  {
    var tail := Text(IfGiven(CODE_SERVER, server) + IfAllow(code));
    if code == Ascii("404") then Block([Indexed(CODE_404)]) + tail
    else if room >= 8 then Block([Reference(CODE_404, code[..3])]) + tail
    else [0, 0] + STATUS_NAME + tail
  }

  /** h3zero_create_error_frame */
  method CreateErrorFrame(buf: array<Byte>, bytes: Cursor, max: nat, errorCode: Bytes, server: Option<Bytes>)
    returns (next: Cursor)
    requires max <= buf.Length && (bytes.At? ==> bytes.pos <= max) && |errorCode| >= 3
    modifies buf
    ensures bytes.At? ==>
              Wrote(old(buf[..]), buf[..], bytes, max, ErrorText(errorCode, server, max - bytes.pos), next)
    ensures bytes.Null? ==> next == Null
  {
    ghost var b := buf[..];
    if bytes.Null? || bytes.pos + 2 > max {
      return Null;
    }
    var start := bytes.pos;
    next := PutPrefix(buf, bytes, max);
    ghost var text: Bytes := [];
    if errorCode == Ascii("404") {
      next := PutIndexed(buf, next, max, CODE_404, b, bytes, []);
      assert [] + [Indexed(CODE_404)] == [Indexed(CODE_404)];
      text := Block([Indexed(CODE_404)]);
    } else {
      next := PutStatusLiteral(buf, next, max, errorCode, b, bytes);
      text := StatusText(errorCode, max - start);
    }
    next := PutTail(buf, next, max, errorCode, server, b, bytes, text);
    ErrorTextIs(errorCode, server, max - start);
  }

  function StatusText(code: Bytes, room: nat): Bytes
    requires |code| >= 3
  {
    if room >= 8 then Block([Reference(CODE_404, code[..3])]) else [0, 0] + STATUS_NAME
  }

  lemma ErrorTextIs(code: Bytes, server: Option<Bytes>, room: nat)
    requires |code| >= 3
    ensures ErrorText(code, server, room)
         == (if code == Ascii("404") then Block([Indexed(CODE_404)]) else StatusText(code, room))
            + Text(IfGiven(CODE_SERVER, server)) + Text(IfAllow(code))
  {
    hide Text, Ascii, Block, IfGiven, IfAllow;
    TextAppend(IfGiven(CODE_SERVER, server), IfAllow(code));
    var a, b := Text(IfGiven(CODE_SERVER, server)), Text(IfAllow(code));
    var head := if code == Ascii("404") then Block([Indexed(CODE_404)]) else StatusText(code, room);
    assert ErrorText(code, server, room) == head + (a + b);
    assert head + (a + b) == head + a + b;
  }

  /** The name reference, then the length and three digits if there is room for them. */
  method PutStatusLiteral(buf: array<Byte>, bytes: Cursor, max: nat, errorCode: Bytes, ghost before: Bytes,
                          start: Cursor)
    returns (next: Cursor)
    requires max <= buf.Length && |errorCode| >= 3 && start.At?
    requires Wrote(before, buf[..], start, max, Block([]), bytes)
    modifies buf
    ensures Wrote(before, buf[..], start, max, StatusText(errorCode, max - start.pos), next)
  {
    StatusReference(errorCode[..3]);
    hide Wrote, Block, PrefixInt.Encode;
    ghost var b0 := buf[..];
    next := CodeEncode(buf, bytes, max, 0x50, 0x0F, CODE_404);
    ghost var b1, middle, prefix := buf[..], next, [0, 0] + STATUS_NAME;
    WroteBoth(before, b0, b1, start, bytes, middle, max, [0, 0], STATUS_NAME);
    WroteMoves(before, b1, start, max, prefix, middle);
    if next.At? && next.pos + 4 <= max {
      next := WriteDigits(buf, next, max, errorCode);
      WroteBoth(before, b1, buf[..], start, middle, next, max, prefix, [3] + errorCode[..3]);
    }
  }

  lemma WroteMoves(before: Bytes, after: Bytes, start: Cursor, max: nat, text: Bytes, next: Cursor)
    requires Wrote(before, after, start, max, text, next) && start.At?
    ensures next == if start.pos + |text| <= max then At(start.pos + |text|) else Null
  {
  }

  method WriteDigits(buf: array<Byte>, bytes: Cursor, max: nat, code: Bytes) returns (next: Cursor)
    requires max <= buf.Length && bytes.At? && bytes.pos + 4 <= max && |code| >= 3
    modifies buf
    ensures Wrote(old(buf[..]), buf[..], bytes, max, [3] + code[..3], next)
  {
    var p := bytes.pos;
    buf[p], buf[p + 1], buf[p + 2], buf[p + 3] := 3, code[0], code[1], code[2];
    next := At(p + 4);
  }

  lemma StatusReference(digits: Bytes)
    requires |digits| == 3
    ensures PrefixInt.Encode(0x50, 0x0F, CODE_404) == STATUS_NAME && Block([]) == [0, 0]
    ensures Block([Reference(CODE_404, digits)]) == [0, 0] + STATUS_NAME + ([3] + digits)
  {
    TextOfOne(Reference(CODE_404, digits));
    assert PrefixInt.Encode(0x50, 0x0F, CODE_404) == STATUS_NAME;
    assert StringLiteral(digits) == [3] + digits;
  }

  /** Server string and, for 405, the allowed methods. */
  method PutTail(buf: array<Byte>, bytes: Cursor, max: nat, errorCode: Bytes, server: Option<Bytes>,
                 ghost before: Bytes, ghost start: Cursor, ghost text: Bytes) returns (next: Cursor)
    requires max <= buf.Length && Wrote(before, buf[..], start, max, text, bytes)
    modifies buf
    ensures var tail := text + Text(IfGiven(CODE_SERVER, server)) + Text(IfAllow(errorCode));
            Wrote(before, buf[..], start, max, tail, next)
  {
    next := bytes;
    ghost var t := text;
    if server.Some? {
      ghost var b := buf[..];
      next := LiteralPlusRefEncode(buf, bytes, max, CODE_SERVER, server.value);
      TextOfOne(Reference(CODE_SERVER, server.value));
      WroteBoth(before, b, buf[..], start, bytes, next, max, text, ReferenceLine(CODE_SERVER, server.value));
    }
    t := text + Text(IfGiven(CODE_SERVER, server));
    assert Wrote(before, buf[..], start, max, t, next);
    if errorCode == Ascii("405") {
      ghost var b, p := buf[..], next;
      var allowed := Ascii("GET, POST, CONNECT");
      next := LiteralPlusRefEncode(buf, next, max, CODE_ALLOW, allowed);
      TextOfOne(Reference(CODE_ALLOW, allowed));
      WroteBoth(before, b, buf[..], start, p, next, max, t, ReferenceLine(CODE_ALLOW, allowed));
    } else {
      assert t + [] == t;
    }
  }

  /** The status that an error block carries when nothing was dropped: the number of its three digits. */
  function ErrorStatus(code: Bytes): int
    requires |code| >= 3
  {
    Status.Three(code[0], code[1], code[2])
  }

  lemma MeaningOfAllow(code: Bytes, parts: Parts)
    ensures Legal(IfAllow(code)) && Meaning(IfAllow(code), parts) == Parsed(parts)
  {
    if code == Ascii("405") { MeaningOfOne(Reference(CODE_ALLOW, Ascii("GET, POST, CONNECT")), parts); }
  }

  /** The error builder, exactly: a block that the builder completes in `room`
      octets gives back the status if and only if it is 404 or eight octets were
      there for the prefix, the name reference and the literal; otherwise the
      builder reports success with a block that its own parser rejects. */
  lemma ErrorRoundTrip(code: Bytes, server: Option<Bytes>, room: nat)
    requires |code| >= 3 && SizedOption(server) && |ErrorText(code, server, room)| <= room
    ensures ParseBlock(ErrorText(code, server, room))
         == if code == Ascii("404") || room >= 8
            then Parsed(NO_PARTS.(status := ErrorStatus(code)))
            else Rejected
  {
    var first := if code == Ascii("404") then Indexed(CODE_404) else Reference(CODE_404, code[..3]);
    var tail := IfGiven(CODE_SERVER, server) + IfAllow(code);
    var p := NO_PARTS.(status := ErrorStatus(code));
    MeaningOfOne(first, NO_PARTS);
    Status.StatusOfThree(code[..3]);
    assert first.Apply(NO_PARTS) == Some(p);
    MeaningOfIgnored(CODE_SERVER, server, p);
    MeaningOfAllow(code, p);
    MeaningAppend(IfGiven(CODE_SERVER, server), IfAllow(code), p);
    if code == Ascii("404") || room >= 8 {
      hide *;
      MeaningAppend([first], tail, NO_PARTS);
      BlockGrows([first], tail);
      ParseInvertsBlock([first] + tail);
      ErrorTextWithRoom(code, server, room);
    } else {
      DroppedStatusRejected(code, server, room);
    }
  }

  /** An input that shows it: four octets of room, no server string and a status other than
      404 and 405. The builder returns a block of four octets, and the parser rejects it. */
  lemma FourOctetErrorIsRejected(code: Bytes)
    requires |code| >= 3 && code != Ascii("404") && code != Ascii("405")
    ensures ErrorText(code, None, 4) == [0x00, 0x00, 0x5F, 0x0C]
    ensures ParseBlock(ErrorText(code, None, 4)) == Rejected
  {
    hide Ascii, ParseBlock;
    assert ErrorText(code, None, 4) == [0, 0] + STATUS_NAME + [];
    ErrorRoundTrip(code, None, 4);
  }

  lemma ErrorTextWithRoom(code: Bytes, server: Option<Bytes>, room: nat)
    requires |code| >= 3 && (code == Ascii("404") || room >= 8)
    ensures ErrorText(code, server, room)
         == Block([if code == Ascii("404") then Indexed(CODE_404) else Reference(CODE_404, code[..3])])
            + Text(IfGiven(CODE_SERVER, server) + IfAllow(code))
  {
  }

  lemma DroppedStatusRejected(code: Bytes, server: Option<Bytes>, room: nat)
    requires |code| >= 3 && code != Ascii("404") && room < 8
    requires |ErrorText(code, server, room)| <= room
    ensures ParseBlock(ErrorText(code, server, room)) == Rejected
  {
    var tail := Text(IfGiven(CODE_SERVER, server) + IfAllow(code));
    ErrorTextWithoutRoom(code, server, room);
    PrefixInt.DecodeInvertsEncode(0x50, 0x0F, CODE_404, tail);
    assert PrefixInt.Encode(0x50, 0x0F, CODE_404) == STATUS_NAME;
    hide ParseLine, ParseBlock, ParseValue, SetField, PrefixInt.Decode, PrefixInt.Encode, Text, ErrorText, Ascii;
    ParseReferenceForm(STATUS_NAME, CODE_404, tail, NO_PARTS);
    assert StaticHeader(CODE_404) == StatusH;
    ShortTailFails(code, server, tail);
    BlockOfFailedLine(STATUS_NAME + tail);
  }

  lemma ErrorTextWithoutRoom(code: Bytes, server: Option<Bytes>, room: nat)
    requires |code| >= 3 && code != Ascii("404") && room < 8
    ensures ErrorText(code, server, room)
         == [0, 0] + (STATUS_NAME + Text(IfGiven(CODE_SERVER, server) + IfAllow(code)))
  {
    hide Text, IfGiven, IfAllow, Ascii;
    var tail := Text(IfGiven(CODE_SERVER, server) + IfAllow(code));
    assert [0, 0] + STATUS_NAME + tail == [0, 0] + (STATUS_NAME + tail);
  }

  lemma BlockOfFailedLine(line: Bytes)
    requires line != [] && ParseLine(line, NO_PARTS) == Failed
    ensures ParseBlock([0, 0] + line) == Rejected
  {
    hide ParseLine;
    var b := [0, 0] + line;
    assert PrefixInt.Decode(b[1..], 0x7F) == PrefixInt.Good(0, 1);
    assert b[2..] == line;
  }

  lemma AllowLength(code: Bytes)
    ensures code == Ascii("405") ==> |Text(IfAllow(code))| >= 18
  {
    TextOfOne(Reference(CODE_ALLOW, Ascii("GET, POST, CONNECT")));
  }

  lemma ShortTailFails(code: Bytes, server: Option<Bytes>, tail: Bytes)
    requires tail == Text(IfGiven(CODE_SERVER, server) + IfAllow(code)) && |tail| <= 3
    ensures ParseValue(tail, StatusH, NO_PARTS) == Failed
  {
    TextAppend(IfGiven(CODE_SERVER, server), IfAllow(code));
    AllowLength(code);
    if server.Some? {
      TextOfOne(Reference(CODE_SERVER, server.value));
      FirstOctet(0x50, 0x0F, CODE_SERVER);
      assert tail[0] == 0x5F;
      assert PrefixInt.Decode(tail, 0x7F) == PrefixInt.Good(0x5F, 1);
    }
  }
}
