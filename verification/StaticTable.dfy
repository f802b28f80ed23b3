/** The static table as text (Appendix A of RFC 9204), and what it says about the
    parser: an indexed line means what its text means as a literal. */
module StaticTable {
  import opened Bytes
  import opened Qpack
  import PrefixInt
  import Status

  datatype TextField = Field(name: string, value: string)

  /** qpack_static, with the header names in the text of Appendix A; "" for an entry without a value. */
  function Entry(i: nat): (f: TextField)
    requires i < STATIC_ENTRIES
    ensures |f.name| < 64 && |f.value| < 64
  {
    if i < 29 then EntryTo28(i) else if i < 56 then EntryTo55(i) else if i < 79 then EntryTo78(i) else EntryTo98(i)
  }

  function EntryTo28(i: nat): (f: TextField)
    requires 0 <= i < 29
    ensures |f.name| < 64 && |f.value| < 64
  {
    match i
    case 0 => Field(":authority", "")
    case 1 => Field(":path", "/")
    case 2 => Field("age", "0")
    case 3 => Field("content-disposition", "")
    case 4 => Field("content-length", "0")
    case 5 => Field("cookie", "")
    case 6 => Field("date", "")
    case 7 => Field("etag", "")
    case 8 => Field("if-modified-since", "")
    case 9 => Field("if-none-match", "")
    case 10 => Field("last-modified", "")
    case 11 => Field("link", "")
    case 12 => Field("location", "")
    case 13 => Field("referer", "")
    case 14 => Field("set-cookie", "")
    case 15 => Field(":method", "CONNECT")
    case 16 => Field(":method", "DELETE")
    case 17 => Field(":method", "GET")
    case 18 => Field(":method", "HEAD")
    case 19 => Field(":method", "OPTIONS")
    case 20 => Field(":method", "POST")
    case 21 => Field(":method", "PUT")
    case 22 => Field(":scheme", "http")
    case 23 => Field(":scheme", "https")
    case 24 => Field(":status", "103")
    case 25 => Field(":status", "200")
    case 26 => Field(":status", "304")
    case 27 => Field(":status", "404")
    case _ => Field(":status", "503")
  }

  function EntryTo55(i: nat): (f: TextField)
    requires 29 <= i < 56
    ensures |f.name| < 64 && |f.value| < 64
  {
    match i
    case 29 => Field("accept", "*/*")
    case 30 => Field("accept", "application/dns-message")
    case 31 => Field("accept-encoding", "gzip, deflate, br")
    case 32 => Field("accept-ranges", "bytes")
    case 33 => Field("access-control-allow-headers", "cache-control")
    case 34 => Field("access-control-allow-headers", "content-type")
    case 35 => Field("access-control-allow-origin", "*")
    case 36 => Field("cache-control", "max-age=0")
    case 37 => Field("cache-control", "max-age=2592000")
    case 38 => Field("cache-control", "max-age=604800")
    case 39 => Field("cache-control", "no-cache")
    case 40 => Field("cache-control", "no-store")
    case 41 => Field("cache-control", "public, max-age=31536000")
    case 42 => Field("content-encoding", "br")
    case 43 => Field("content-encoding", "gzip")
    case 44 => Field("content-type", "application/dns-message")
    case 45 => Field("content-type", "application/javascript")
    case 46 => Field("content-type", "application/json")
    case 47 => Field("content-type", "application/x-www-form-urlencoded")
    case 48 => Field("content-type", "image/gif")
    case 49 => Field("content-type", "image/jpeg")
    case 50 => Field("content-type", "image/png")
    case 51 => Field("content-type", "text/css")
    case 52 => Field("content-type", "text/html; charset=utf-8")
    case 53 => Field("content-type", "text/plain")
    case 54 => Field("content-type", "text/plain;charset=utf-8")
    case _ => Field("range", "bytes=0-")
  }

  function EntryTo78(i: nat): (f: TextField)
    requires 56 <= i < 79
    ensures |f.name| < 64 && |f.value| < 64
  {
    match i
    case 56 => Field("strict-transport-security", "max-age=31536000")
    case 57 => Field("strict-transport-security", "max-age=31536000; includesubdomains")
    case 58 => Field("strict-transport-security", "max-age=31536000; includesubdomains; preload")
    case 59 => Field("vary", "accept-encoding")
    case 60 => Field("vary", "origin")
    case 61 => Field("x-content-type-options", "nosniff")
    case 62 => Field("x-xss-protection", "1; mode=block")
    case 63 => Field(":status", "100")
    case 64 => Field(":status", "204")
    case 65 => Field(":status", "206")
    case 66 => Field(":status", "302")
    case 67 => Field(":status", "400")
    case 68 => Field(":status", "403")
    case 69 => Field(":status", "421")
    case 70 => Field(":status", "425")
    case 71 => Field(":status", "500")
    case 72 => Field("accept-language", "")
    case 73 => Field("access-control-allow-credentials", "FALSE")
    case 74 => Field("access-control-allow-credentials", "TRUE")
    case 75 => Field("access-control-allow-headers", "*")
    case 76 => Field("access-control-allow-methods", "get")
    case 77 => Field("access-control-allow-methods", "get, post, options")
    case _ => Field("access-control-allow-methods", "options")
  }

  function EntryTo98(i: nat): (f: TextField)
    requires 79 <= i < 99
    ensures |f.name| < 64 && |f.value| < 64
  {
    match i
    case 79 => Field("access-control-expose-headers", "content-length")
    case 80 => Field("access-control-request-headers", "content-type")
    case 81 => Field("access-control-request-method", "get")
    case 82 => Field("access-control-request-method", "post")
    case 83 => Field("alt-svc", "clear")
    case 84 => Field("authorization", "")
    case 85 => Field("content-security-policy", "script-src 'none'; object-src 'none'; base-uri 'none'")
    case 86 => Field("early-data", "1")
    case 87 => Field("expect-ct", "")
    case 88 => Field("forwarded", "")
    case 89 => Field("if-range", "")
    case 90 => Field("origin", "")
    case 91 => Field("purpose", "prefetch")
    case 92 => Field("server", "")
    case 93 => Field("timing-allow-origin", "*")
    case 94 => Field("upgrade-insecure-requests", "1")
    case 95 => Field("user-agent", "")
    case 96 => Field("x-forwarded-for", "")
    case 97 => Field("x-frame-options", "deny")
    case _ => Field("x-frame-options", "sameorigin")
  }

  function Name(i: nat): Bytes
    requires i < STATIC_ENTRIES
  {
    Ascii(Entry(i).name)
  }

  function Value(i: nat): Bytes
    requires i < STATIC_ENTRIES
  {
    Ascii(Entry(i).value)
  }

  // ---------------------------------------------------------- the header names

  /** Text without the octet that stands for characters outside ASCII. */
  predicate Plain(s: string) {
    forall i | 0 <= i < |s| :: s[i] as int < 0x80 && s[i] != '?'
  }

  lemma AsciiIsInjective(a: string, b: string)
    requires Plain(b) && a != b
    ensures Ascii(a) != Ascii(b)
  {
    if |a| == |b| {
      var i :| 0 <= i < |a| && a[i] != b[i];
      assert Ascii(a)[i] != Ascii(b)[i];
    }
  }

  /** No two of the seven names that the parser knows are alike, and no other name is one of them. */
  lemma HeaderOfText(name: string)
    ensures HeaderByName(Ascii(name))
         == if name == ":method" then MethodH
            else if name == ":path" then PathH
            else if name == ":status" then StatusH
            else if name == "content-type" then ContentTypeH
            else if name == ":protocol" then ProtocolH
            else if name == "origin" then OriginH
            else if name == "range" then RangeH
            else OtherH
  {
    hide Ascii;
    if name != ":method" { AsciiIsInjective(name, ":method"); }
    if name != ":path" { AsciiIsInjective(name, ":path"); }
    if name != ":status" { AsciiIsInjective(name, ":status"); }
    if name != "content-type" { AsciiIsInjective(name, "content-type"); }
    if name != ":protocol" { AsciiIsInjective(name, ":protocol"); }
    if name != "origin" { AsciiIsInjective(name, "origin"); }
    if name != "range" { AsciiIsInjective(name, "range"); }
  }

  /** A name that the parser does not know. */
  predicate Unknown(name: string) {
    HeaderByName(Ascii(name)) == OtherH
  }

  lemma Unknown0()
    ensures Unknown(":authority") && Unknown("age") && Unknown("content-disposition")
    ensures Unknown("content-length") && Unknown("cookie") && Unknown("date")
    ensures Unknown("etag") && Unknown("if-modified-since") && Unknown("if-none-match")
    ensures Unknown("last-modified") && Unknown("link") && Unknown("location")
  {
    hide Ascii, HeaderByName;
    HeaderOfText(":authority"); HeaderOfText("age"); HeaderOfText("content-disposition");
    HeaderOfText("content-length"); HeaderOfText("cookie"); HeaderOfText("date"); HeaderOfText("etag");
    HeaderOfText("if-modified-since"); HeaderOfText("if-none-match"); HeaderOfText("last-modified");
    HeaderOfText("link"); HeaderOfText("location");
  }

  lemma Unknown1()
    ensures Unknown("referer") && Unknown("set-cookie") && Unknown(":scheme")
    ensures Unknown("accept") && Unknown("accept-encoding") && Unknown("accept-ranges")
    ensures Unknown("access-control-allow-headers") && Unknown("access-control-allow-origin")
    ensures Unknown("cache-control")
    ensures Unknown("content-encoding") && Unknown("strict-transport-security") && Unknown("vary")
  {
    hide Ascii, HeaderByName;
    HeaderOfText("referer"); HeaderOfText("set-cookie"); HeaderOfText(":scheme"); HeaderOfText("accept");
    HeaderOfText("accept-encoding"); HeaderOfText("accept-ranges");
    HeaderOfText("access-control-allow-headers"); HeaderOfText("access-control-allow-origin");
    HeaderOfText("cache-control"); HeaderOfText("content-encoding"); HeaderOfText("strict-transport-security");
    HeaderOfText("vary");
  }

  lemma Unknown2()
    ensures Unknown("x-content-type-options") && Unknown("x-xss-protection") && Unknown("accept-language")
    ensures Unknown("access-control-allow-credentials") && Unknown("access-control-allow-methods")
    ensures Unknown("access-control-expose-headers")
    ensures Unknown("access-control-request-headers") && Unknown("access-control-request-method")
    ensures Unknown("alt-svc")
    ensures Unknown("authorization") && Unknown("content-security-policy") && Unknown("early-data")
  {
    hide Ascii, HeaderByName;
    HeaderOfText("x-content-type-options"); HeaderOfText("x-xss-protection"); HeaderOfText("accept-language");
    HeaderOfText("access-control-allow-credentials"); HeaderOfText("access-control-allow-methods");
    HeaderOfText("access-control-expose-headers"); HeaderOfText("access-control-request-headers");
    HeaderOfText("access-control-request-method"); HeaderOfText("alt-svc"); HeaderOfText("authorization");
    HeaderOfText("content-security-policy"); HeaderOfText("early-data");
  }

  lemma Unknown3()
    ensures Unknown("expect-ct") && Unknown("forwarded") && Unknown("if-range")
    ensures Unknown("purpose") && Unknown("server") && Unknown("timing-allow-origin")
    ensures Unknown("upgrade-insecure-requests") && Unknown("user-agent") && Unknown("x-forwarded-for")
    ensures Unknown("x-frame-options")
  {
    hide Ascii, HeaderByName;
    HeaderOfText("expect-ct"); HeaderOfText("forwarded"); HeaderOfText("if-range"); HeaderOfText("purpose");
    HeaderOfText("server"); HeaderOfText("timing-allow-origin"); HeaderOfText("upgrade-insecure-requests");
    HeaderOfText("user-agent"); HeaderOfText("x-forwarded-for"); HeaderOfText("x-frame-options");
  }

  lemma KnownNames()
    ensures HeaderByName(Ascii(":method")) == MethodH && HeaderByName(Ascii(":path")) == PathH
    ensures HeaderByName(Ascii(":status")) == StatusH && HeaderByName(Ascii("content-type")) == ContentTypeH
    ensures HeaderByName(Ascii("origin")) == OriginH && HeaderByName(Ascii("range")) == RangeH
  {
    hide Ascii, HeaderByName;
    HeaderOfText(":method");
    HeaderOfText(":path");
    HeaderOfText(":status");
    HeaderOfText("content-type");
    HeaderOfText("origin");
    HeaderOfText("range");
  }

  lemma HeaderOfLowEntry(i: nat)
    requires i < 44
    ensures StaticHeader(i) == HeaderByName(Name(i))
  {
    hide HeaderByName, Ascii;
    KnownNames();
    Unknown0(); Unknown1(); Unknown2(); Unknown3();
  }

  lemma HeaderOfHighEntry(i: nat)
    requires 44 <= i < STATIC_ENTRIES
    ensures StaticHeader(i) == HeaderByName(Name(i))
  {
    hide HeaderByName, Ascii;
    KnownNames();
    Unknown0(); Unknown1(); Unknown2(); Unknown3();
  }

  /** The header that an index stands for is that of the name at the index. */
  lemma HeaderOfEntry(i: nat)
    requires i < STATIC_ENTRIES
    ensures StaticHeader(i) == HeaderByName(Name(i))
  {
    hide *;
    if i < 44 { HeaderOfLowEntry(i); } else { HeaderOfHighEntry(i); }
  }

  // ---------------------------------------------------------------- the values

  /** The text of a method. */
  function MethodText(m: Method): string {
    match m
    case Connect => "CONNECT"
    case Delete => "DELETE"
    case Get => "GET"
    case Head => "HEAD"
    case Options => "OPTIONS"
    case Post => "POST"
    case Put => "PUT"
    case _ => ""
  }

  lemma MethodOfText(m: Method)
    requires m != NoMethod && m != MethodNotSupported
    ensures MethodByName(Ascii(MethodText(m))) == m
  {
    hide Ascii;
    var text := MethodText(m);
    if text != "CONNECT" { AsciiIsInjective(text, "CONNECT"); }
    if text != "DELETE" { AsciiIsInjective(text, "DELETE"); }
    if text != "GET" { AsciiIsInjective(text, "GET"); }
    if text != "HEAD" { AsciiIsInjective(text, "HEAD"); }
    if text != "OPTIONS" { AsciiIsInjective(text, "OPTIONS"); }
    if text != "POST" { AsciiIsInjective(text, "POST"); }
    if text != "PUT" { AsciiIsInjective(text, "PUT"); }
  }

  /** A value is a known method if and only if it is the text of the method. */
  lemma MethodIffText(value: Bytes, m: Method)
    requires m != NoMethod && m != MethodNotSupported
    ensures MethodByName(value) == m <==> value == Ascii(MethodText(m))
    ensures MethodByName(value) != NoMethod
  {
    MethodOfText(m);
    hide Ascii;
  }

  /** The texts of a content type; plain text has two. */
  function TypeText(ct: ContentType): string {
    match ct
    case DnsMessage => "application/dns-message"
    case Javascript => "application/javascript"
    case Json => "application/json"
    case FormUrlencoded => "application/x-www-form-urlencoded"
    case ImageGif => "image/gif"
    case ImageJpeg => "image/jpeg"
    case ImagePng => "image/png"
    case TextCss => "text/css"
    case TextHtml => "text/html; charset=utf-8"
    case TextPlain => "text/plain"
    case _ => ""
  }

  const PLAIN_UTF8 := "text/plain;charset=utf-8"

  lemma TypeTextLengths()
    ensures |Ascii("application/dns-message")| == 23 && |Ascii("application/javascript")| == 22
    ensures |Ascii("application/json")| == 16 && |Ascii("application/x-www-form-urlencoded")| == 33
    ensures |Ascii("image/gif")| == 9 && |Ascii("image/png")| == 9 && |Ascii("image/jpeg")| == 10
    ensures |Ascii("text/plain")| == 10 && |Ascii("text/css")| == 8
    ensures |Ascii("text/html; charset=utf-8")| == 24 && |Ascii(PLAIN_UTF8)| == 24
  {
  }

  lemma TypeTextsDiffer()
    ensures Ascii("image/gif") != Ascii("image/png") && Ascii("image/jpeg") != Ascii("text/plain")
    ensures Ascii("text/html; charset=utf-8") != Ascii(PLAIN_UTF8)
  {
    assert Ascii("image/gif")[6] == 'g' as int && Ascii("image/png")[6] == 'p' as int;
    assert Ascii("image/jpeg")[0] == 'i' as int && Ascii("text/plain")[0] == 't' as int;
    assert Ascii("text/html; charset=utf-8")[5] == 'h' as int && Ascii(PLAIN_UTF8)[5] == 'p' as int;
  }

  lemma TypeOfText(ct: ContentType)
    requires ct != NoContentType && ct != ContentTypeNotSupported
    ensures ContentTypeByName(Ascii(TypeText(ct))) == ct && ContentTypeByName(Ascii(PLAIN_UTF8)) == TextPlain
  {
    hide Ascii;
    TypeTextLengths();
    TypeTextsDiffer();
  }

  lemma TypeHasText(value: Bytes)
    ensures var ct := ContentTypeByName(value);
            ct != NoContentType && (ct == ContentTypeNotSupported || value == Ascii(TypeText(ct))
                                    || (ct == TextPlain && value == Ascii(PLAIN_UTF8)))
  {
    hide Ascii;
  }

  /** A value is a known content type if and only if it is a text of it. */
  lemma TypeIffText(value: Bytes, ct: ContentType)
    requires ct != NoContentType && ct != ContentTypeNotSupported
    ensures ContentTypeByName(value) == ct
       <==> value == Ascii(TypeText(ct)) || (ct == TextPlain && value == Ascii(PLAIN_UTF8))
    ensures ContentTypeByName(value) != NoContentType
  {
    hide *;
    TypeOfText(ct);
    TypeHasText(value);
  }

  /** The enumerated value that an index sets is that of its text. */
  lemma MethodOfEntry(i: nat)
    requires i < STATIC_ENTRIES && StaticHeader(i) == MethodH
    ensures StaticMethod(i) == MethodByName(Value(i))
  {
    hide Ascii, MethodByName;
    MethodOfText(StaticMethod(i));
  }

  lemma TypeOfEntry(i: nat)
    requires i < STATIC_ENTRIES && StaticHeader(i) == ContentTypeH
    ensures StaticContentType(i) == ContentTypeByName(Value(i))
  {
    hide Ascii, ContentTypeByName;
    TypeOfText(StaticContentType(i));
  }

  lemma StatusOfEntry(i: nat)
    requires i < STATIC_ENTRIES && StaticHeader(i) == StatusH
    ensures StaticStatus(i) == StatusValue(Value(i))
  {
    Status.StatusOfThree(Value(i));
    hide StatusValue;
  }

  /** An indexed field means what its name and value mean as text, with one exception:
      the parser passes over the range entry, which as text would set the range. */
  lemma IndexMeansText(i: nat, parts: Parts)
    requires i < STATIC_ENTRIES
    ensures SetStatic(i, parts)
         == if i == 55 then Some(parts) else SetField(HeaderByName(Name(i)), parts, Value(i))
  {
    HeaderOfEntry(i);
    if StaticHeader(i) == MethodH { MethodOfEntry(i); }
    if StaticHeader(i) == ContentTypeH { TypeOfEntry(i); }
    if StaticHeader(i) == StatusH { StatusOfEntry(i); }
    if StaticHeader(i) == PathH { assert Value(i) == Ascii("/"); }
    hide Entry, Ascii, Name, Value, HeaderByName, MethodByName, ContentTypeByName, StatusValue;
    hide StaticMethod, StaticContentType, StaticStatus;
  }

  /** The three forms of a line with a field of the table: index, name reference and literal name. */
  lemma FormsMeanTheSame(i: nat, rest: Bytes, parts: Parts)
    requires i < STATIC_ENTRIES && i != 55
    ensures var index, reference := IndexedLine(i), ReferenceLine(i, Value(i));
            var named := NamedLine(Name(i), Value(i));
            match SetField(HeaderByName(Name(i)), parts, Value(i))
            case None =>
              && ParseLine(index + rest, parts) == Failed
              && ParseLine(reference + rest, parts) == Failed
              && ParseLine(named + rest, parts) == Failed
            case Some(p) =>
              && ParseLine(index + rest, parts) == Next(p, |index|)
              && ParseLine(reference + rest, parts) == Next(p, |reference|)
              && ParseLine(named + rest, parts) == Next(p, |named|)
  {
    EntryIsSized(i);
    hide *;
    IndexMeansText(i, parts);
    HeaderOfEntry(i);
    ParseIndexedLine(i, rest, parts);
    ParseReferenceLine(i, Value(i), rest, parts);
    ParseNamedLine(Name(i), Value(i), rest, parts);
  }

  lemma EntryIsSized(i: nat)
    requires i < STATIC_ENTRIES
    ensures Sized(Name(i)) && Sized(Value(i))
  {
  }

  /** The exception: indexed, the range entry changes nothing; as text it sets the range or is a duplicate. */
  lemma RangeEntry(rest: Bytes, parts: Parts)
    ensures ParseLine(IndexedLine(55) + rest, parts) == Next(parts, |IndexedLine(55)|)
    ensures Value(55) == Ascii("bytes=0-")
    ensures ParseLine(ReferenceLine(55, Value(55)) + rest, parts)
         == if parts.range == None
            then Next(parts.(range := Some(Value(55))), |ReferenceLine(55, Value(55))|) else Failed
  {
    EntryIsSized(55);
    RangeMeaning();
    hide *;
    ParseIndexedLine(55, rest, parts);
    ParseReferenceLine(55, Value(55), rest, parts);
    RangeField(parts);
  }

  lemma RangeMeaning()
    ensures Value(55) == Ascii("bytes=0-") && StaticHeader(55) == RangeH
  {
    hide Ascii;
  }

  lemma RangeField(parts: Parts)
    ensures SetStatic(55, parts) == Some(parts)
    ensures SetField(RangeH, parts, Value(55))
         == if parts.range == None then Some(parts.(range := Some(Value(55)))) else None
  {
    hide Value;
  }
}
