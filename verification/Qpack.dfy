/** Header blocks over the static table only (section 4.5 of RFC 9204): what a
    block means, as a function from octets to the header parts it sets. */
module Qpack {
  import opened Bytes
  import PrefixInt
  import Huffman
  import HuffmanTable

  /** Values longer than the 256-octet scratch buffer are cut by the Huffman decoder. */
  const SCRATCH: nat := 256
  const STATIC_ENTRIES: nat := 99

  datatype Method =
    NoMethod | MethodNotSupported | Connect | Delete | Get | Head | Options | Post | Put

  datatype ContentType =
    NoContentType | ContentTypeNotSupported | TextHtml | TextPlain | ImageGif | ImageJpeg | ImagePng
    | DnsMessage | Javascript | Json | FormUrlencoded | TextCss

  /** The header names that the parser distinguishes. */
  datatype Header = MethodH | PathH | StatusH | ContentTypeH | ProtocolH | OriginH | RangeH | OtherH

  datatype Parts = Parts(verb: Method, path: Option<Bytes>, range: Option<Bytes>, status: int,
                         contentType: ContentType, protocol: Option<Bytes>)

  const NO_PARTS := Parts(NoMethod, None, None, 0, NoContentType, None)

  /** Rejected is the NULL of the C parser. Static index 99 passes its bound check
      but lies outside the table, so nothing is said about what C then does. */
  datatype Outcome = Parsed(parts: Parts) | Rejected | OffTable

  datatype Line = Next(parts: Parts, used: nat) | Failed | BeyondTable

  function Octet(c: char): Byte {
    if c as int < 0x80 then c as int else 0x3F
  }

  /** The octets of a C string literal. */
  function Ascii(s: string): Bytes {
    seq(|s|, i requires 0 <= i < |s| => Octet(s[i]))
  }

  // -------------------------------------------------------- the static table

  function StaticHeader(i: nat): Header
    requires i < STATIC_ENTRIES
  {
    if i == 1 then PathH
    else if 15 <= i <= 21 then MethodH
    else if 24 <= i <= 28 || 63 <= i <= 71 then StatusH
    else if 44 <= i <= 54 then ContentTypeH
    else if i == 55 then RangeH
    else if i == 90 then OriginH
    else OtherH
  }

  function StaticMethod(i: nat): Method
    requires 15 <= i <= 21
  {
    match i
    case 15 => Connect
    case 16 => Delete
    case 17 => Get
    case 18 => Head
    case 19 => Options
    case 20 => Post
    case 21 => Put
  }

  function StaticContentType(i: nat): ContentType
    requires 44 <= i <= 54
  {
    match i
    case 44 => DnsMessage
    case 45 => Javascript
    case 46 => Json
    case 47 => FormUrlencoded
    case 48 => ImageGif
    case 49 => ImageJpeg
    case 50 => ImagePng
    case 51 => TextCss
    case 52 => TextHtml
    case 53 => TextPlain
    case 54 => TextPlain
  }

  function StaticStatus(i: nat): int
    requires 24 <= i <= 28 || 63 <= i <= 71
  {
    match i
    case 24 => 103
    case 25 => 200
    case 26 => 304
    case 27 => 404
    case 28 => 503
    case 63 => 100
    case 64 => 204
    case 65 => 206
    case 66 => 302
    case 67 => 400
    case 68 => 403
    case 69 => 421
    case 70 => 425
    case _ => 500
  }

  // ------------------------------------------------------------ field values

  function MethodByName(name: Bytes): Method {
    if name == Ascii("CONNECT") then Connect
    else if name == Ascii("DELETE") then Delete
    else if name == Ascii("GET") then Get
    else if name == Ascii("HEAD") then Head
    else if name == Ascii("OPTIONS") then Options
    else if name == Ascii("POST") then Post
    else if name == Ascii("PUT") then Put
    else MethodNotSupported
  }

  function ContentTypeByName(name: Bytes): ContentType {
    if name == Ascii("application/dns-message") then DnsMessage
    else if name == Ascii("application/javascript") then Javascript
    else if name == Ascii("application/json") then Json
    else if name == Ascii("application/x-www-form-urlencoded") then FormUrlencoded
    else if name == Ascii("image/gif") then ImageGif
    else if name == Ascii("image/jpeg") then ImageJpeg
    else if name == Ascii("image/png") then ImagePng
    else if name == Ascii("text/css") then TextCss
    else if name == Ascii("text/html; charset=utf-8") then TextHtml
    else if name == Ascii("text/plain") then TextPlain
    else if name == Ascii("text/plain;charset=utf-8") then TextPlain
    else ContentTypeNotSupported
  }

  function HeaderByName(name: Bytes): Header {
    if name == Ascii(":method") then MethodH
    else if name == Ascii(":path") then PathH
    else if name == Ascii(":status") then StatusH
    else if name == Ascii("content-type") then ContentTypeH
    else if name == Ascii(":protocol") then ProtocolH
    else if name == Ascii("origin") then OriginH
    else if name == Ascii("range") then RangeH
    else OtherH
  }

  predicate IsDigit(b: Byte) {
    0x30 <= b <= 0x39
  }

  /** The decimal value of a digit string; -1 once a non-digit is met. */
  function StatusValue(s: Bytes): int {
    if s == [] then 0
    else
      var head := StatusValue(s[..|s| - 1]);
      if head < 0 || !IsDigit(s[|s| - 1]) then -1 else 10 * head + s[|s| - 1] - 0x30
  }

  /** A field may be set once; origin and unknown headers are ignored. */
  function SetField(h: Header, parts: Parts, value: Bytes): Option<Parts> {
    match h
    case MethodH =>
      if parts.verb != NoMethod then None else Some(parts.(verb := MethodByName(value)))
    case ContentTypeH =>
      if parts.contentType != NoContentType then None
      else Some(parts.(contentType := ContentTypeByName(value)))
    case StatusH =>
      if parts.status != 0 then None else Some(parts.(status := StatusValue(value)))
    case PathH =>
      if parts.path != None then None else Some(parts.(path := Some(value)))
    case RangeH =>
      if parts.range != None then None else Some(parts.(range := Some(value)))
    case ProtocolH =>
      if parts.protocol != None then None else Some(parts.(protocol := Some(value)))
    case OriginH => Some(parts)
    case OtherH => Some(parts)
  }

  /** An indexed line: the range entry of the table is not used. */
  function SetStatic(i: nat, parts: Parts): Option<Parts>
    requires i < STATIC_ENTRIES
  {
    match StaticHeader(i)
    case MethodH =>
      if parts.verb != NoMethod then None else Some(parts.(verb := StaticMethod(i)))
    case ContentTypeH =>
      if parts.contentType != NoContentType then None
      else Some(parts.(contentType := StaticContentType(i)))
    case StatusH =>
      if parts.status != 0 then None else Some(parts.(status := StaticStatus(i)))
    case PathH =>
      if parts.path != None then None else Some(parts.(path := Some(Ascii("/"))))
    case _ => Some(parts)
  }

  // --------------------------------------------------------------- the lines

  /** A string literal; a failing Huffman decode falls back to the raw octets. */
  function Literal(raw: Bytes, huffman: bool): Bytes {
    if huffman && Huffman.Decode(HuffmanTable.QPACK, raw, SCRATCH).ok
    then Huffman.Decode(HuffmanTable.QPACK, raw, SCRATCH).octets
    else raw
  }

  function ParseValue(b: Bytes, h: Header, parts: Parts): Line {
    match PrefixInt.Decode(b, 0x7F)
    case Bad => Failed
    case Good(length, used) =>
      if used + length > |b| then Failed
      else
        match SetField(h, parts, Literal(b[used..used + length], b[0] >= 0x80))
        case None => Failed
        case Some(p) => Next(p, used + length)
  }

  function Shift(line: Line, n: nat): Line {
    match line
    case Next(p, used) => Next(p, n + used)
    case _ => line
  }

  function ParseIndexed(b: Bytes, parts: Parts): Line {
    match PrefixInt.Decode(b, 0x3F)
    case Bad => Failed
    case Good(i, used) =>
      if i > STATIC_ENTRIES then Failed
      else if i == STATIC_ENTRIES then BeyondTable
      else
        match SetStatic(i, parts)
        case None => Failed
        case Some(p) => Next(p, used)
  }

  function ParseNameReference(b: Bytes, parts: Parts): Line {
    match PrefixInt.Decode(b, 0x0F)
    case Bad => Failed
    case Good(i, used) =>
      if i > STATIC_ENTRIES then Failed
      else if i == STATIC_ENTRIES then BeyondTable
      else
        PrefixInt.DecodeBound(b, 0x0F);
        Shift(ParseValue(b[used..], StaticHeader(i), parts), used)
  }

  function ParseLiteralName(b: Bytes, parts: Parts): Line
    requires b != []
  {
    match PrefixInt.Decode(b, 0x07)
    case Bad => Failed
    case Good(length, used) =>
      if used + length > |b| then Failed
      else
        var h := HeaderByName(Literal(b[used..used + length], b[0] / 8 % 2 == 1));
        Shift(ParseValue(b[used + length..], h, parts), used + length)
  }

  function ParseLine(b: Bytes, parts: Parts): Line
    requires b != []
  {
    if b[0] / 0x40 == 3 then ParseIndexed(b, parts)
    else if b[0] / 0x10 == 5 || b[0] / 0x10 == 7 then ParseNameReference(b, parts)
    else if b[0] / 0x20 == 1 then ParseLiteralName(b, parts)
    else Failed
  }

  lemma ParseLineAdvances(b: Bytes, parts: Parts)
    requires b != [] && ParseLine(b, parts).Next?
    ensures 0 < ParseLine(b, parts).used <= |b|
  {
    if b[0] / 0x40 == 3 { PrefixInt.DecodeBound(b, 0x3F); }
    else if b[0] / 0x20 == 1 { PrefixInt.DecodeBound(b, 0x07); }
    else { PrefixInt.DecodeBound(b, 0x0F); }
  }

  function ParseLines(b: Bytes, parts: Parts): Outcome
    decreases |b|
  {
    if b == [] then Parsed(parts)
    else
      match ParseLine(b, parts)
      case Failed => Rejected
      case BeyondTable => OffTable
      case Next(p, used) =>
        ParseLineAdvances(b, parts);
        ParseLines(b[used..], p)
  }

  /** A block: required insert count 0, any delta base, then lines up to the end. */
  function ParseBlock(b: Bytes): Outcome {
    if b == [] || b[0] != 0 then Rejected
    else
      match PrefixInt.Decode(b[1..], 0x7F)
      case Bad => Rejected
      case Good(_, used) =>
        PrefixInt.DecodeBound(b[1..], 0x7F);
        ParseLines(b[1 + used..], NO_PARTS)
  }

  // -------------------------------------------------------- how lines encode

  function IndexedLine(i: nat): Bytes {
    PrefixInt.Encode(0xC0, 0x3F, i)
  }

  function StringLiteral(value: Bytes): Bytes {
    PrefixInt.Encode(0x00, 0x7F, |value|) + value
  }

  function ReferenceLine(i: nat, value: Bytes): Bytes {
    PrefixInt.Encode(0x50, 0x0F, i) + StringLiteral(value)
  }

  function NamedLine(name: Bytes, value: Bytes): Bytes {
    PrefixInt.Encode(0x20, 0x07, |name|) + name + StringLiteral(value)
  }

  ghost function HuffmanLiteral(value: Bytes): Bytes {
    var coded := HuffmanTable.Encode(value);
    PrefixInt.Encode(0x80, 0x7F, |coded|) + coded
  }

  /** An object larger than this does not exist in a 64-bit address space. */
  predicate Sized(s: Bytes) {
    |s| < 0x8000_0000_0000_0000
  }

  lemma FirstOctet(prefix: Byte, mask: Byte, v: nat)
    requires PrefixInt.Disjoint(prefix, mask)
    ensures prefix <= PrefixInt.Encode(prefix, mask, v)[0] <= prefix + mask
  {
  }

  lemma ParseStringLiteral(value: Bytes, rest: Bytes, h: Header, parts: Parts)
    requires Sized(value)
    ensures ParseValue(StringLiteral(value) + rest, h, parts)
         == match SetField(h, parts, value) case None => Failed case Some(p) => Next(p, |StringLiteral(value)|)
  {
    var n := PrefixInt.Encode(0x00, 0x7F, |value|);
    var b := StringLiteral(value) + rest;
    assert b == n + (value + rest);
    PrefixInt.DecodeInvertsEncode(0x00, 0x7F, |value|, value + rest);
    FirstOctet(0x00, 0x7F, |value|);
    assert b[|n|..|n| + |value|] == value;
  }

  /** What fits the scratch buffer of the decoder. */
  function Cut(value: Bytes): Bytes {
    if |value| <= 256 then value else value[..256]
  }

  lemma ParseHuffmanLiteral(value: Bytes, rest: Bytes, h: Header, parts: Parts)
    requires Sized(HuffmanTable.Encode(value))
    ensures ParseValue(HuffmanLiteral(value) + rest, h, parts)
         == match SetField(h, parts, Cut(value)) case None => Failed case Some(p) => Next(p, |HuffmanLiteral(value)|)
  {
    hide HuffmanTable.Encode, Huffman.Decode, PrefixInt.Encode, PrefixInt.Decode, SetField;
    var coded := HuffmanTable.Encode(value);
    var n := PrefixInt.Encode(0x80, 0x7F, |coded|);
    var b := HuffmanLiteral(value) + rest;
    assert b == n + (coded + rest);
    PrefixInt.DecodeInvertsEncode(0x80, 0x7F, |coded|, coded + rest);
    FirstOctet(0x80, 0x7F, |coded|);
    assert b[|n|..|n| + |coded|] == coded;
    HuffmanTable.DecodesAppendixB(value, SCRATCH);
  }

  lemma ParseIndexedLine(i: nat, rest: Bytes, parts: Parts)
    requires i < STATIC_ENTRIES
    ensures ParseLine(IndexedLine(i) + rest, parts)
         == match SetStatic(i, parts) case None => Failed case Some(p) => Next(p, |IndexedLine(i)|)
  {
    FirstOctet(0xC0, 0x3F, i);
    PrefixInt.DecodeInvertsEncode(0xC0, 0x3F, i, rest);
  }

  lemma ParseReferenceForm(n: Bytes, i: nat, tail: Bytes, parts: Parts)
    requires i < STATIC_ENTRIES && n != [] && (0x50 <= n[0] <= 0x5F || 0x70 <= n[0] <= 0x7F)
    requires PrefixInt.Decode(n + tail, 0x0F) == PrefixInt.Good(i, |n|)
    ensures ParseLine(n + tail, parts) == Shift(ParseValue(tail, StaticHeader(i), parts), |n|)
  {
    hide SetField, StaticHeader, ParseValue, PrefixInt.Decode;
    assert (n + tail)[|n|..] == tail;
  }

  lemma ParseReferenceLine(i: nat, value: Bytes, rest: Bytes, parts: Parts)
    requires i < STATIC_ENTRIES && Sized(value)
    ensures ParseLine(ReferenceLine(i, value) + rest, parts)
         == match SetField(StaticHeader(i), parts, value)
            case None => Failed
            case Some(p) => Next(p, |ReferenceLine(i, value)|)
  {
    var n, tail := PrefixInt.Encode(0x50, 0x0F, i), StringLiteral(value) + rest;
    FirstOctet(0x50, 0x0F, i);
    assert ReferenceLine(i, value) + rest == n + tail;
    PrefixInt.DecodeInvertsEncode(0x50, 0x0F, i, tail);
    hide ParseLine, ParseValue, SetField, StaticHeader, PrefixInt.Decode, PrefixInt.Encode;
    ParseReferenceForm(n, i, tail, parts);
    ParseStringLiteral(value, rest, StaticHeader(i), parts);
  }

  ghost function HuffmanLine(i: nat, value: Bytes): Bytes {
    PrefixInt.Encode(0x50, 0x0F, i) + HuffmanLiteral(value)
  }

  lemma ParseHuffmanLine(i: nat, value: Bytes, rest: Bytes, parts: Parts)
    requires i < STATIC_ENTRIES && Sized(HuffmanTable.Encode(value))
    ensures ParseLine(HuffmanLine(i, value) + rest, parts)
         == match SetField(StaticHeader(i), parts, Cut(value))
            case None => Failed
            case Some(p) => Next(p, |HuffmanLine(i, value)|)
  {
    var n, tail := PrefixInt.Encode(0x50, 0x0F, i), HuffmanLiteral(value) + rest;
    FirstOctet(0x50, 0x0F, i);
    PrefixInt.DecodeInvertsEncode(0x50, 0x0F, i, tail);
    hide ParseLine, ParseValue, SetField, StaticHeader, HuffmanLiteral;
    hide PrefixInt.Decode, PrefixInt.Encode;
    assert HuffmanLine(i, value) + rest == n + tail;
    ParseReferenceForm(n, i, tail, parts);
    ParseHuffmanLiteral(value, rest, StaticHeader(i), parts);
  }

  /** A Huffman-coded value means what its first 256 octets mean raw. */
  lemma HuffmanValueMeansTheSame(i: nat, value: Bytes, rest: Bytes, parts: Parts)
    requires i < STATIC_ENTRIES && Sized(value) && Sized(HuffmanTable.Encode(value))
    ensures var raw := ParseLine(ReferenceLine(i, Cut(value)) + rest, parts);
            var coded := ParseLine(HuffmanLine(i, value) + rest, parts);
            if raw.Next? then coded == Next(raw.parts, |HuffmanLine(i, value)|) else coded == raw
  {
    CutIsSized(value);
    hide *;
    ParseReferenceLine(i, Cut(value), rest, parts);
    ParseHuffmanLine(i, value, rest, parts);
  }

  lemma CutIsSized(value: Bytes)
    ensures Sized(Cut(value))
  {
  }

  lemma ParseNamedLine(name: Bytes, value: Bytes, rest: Bytes, parts: Parts)
    requires Sized(name) && Sized(value)
    ensures ParseLine(NamedLine(name, value) + rest, parts)
         == match SetField(HeaderByName(name), parts, value)
            case None => Failed
            case Some(p) => Next(p, |NamedLine(name, value)|)
  {
    var n := PrefixInt.Encode(0x20, 0x07, |name|);
    var tail := StringLiteral(value) + rest;
    assert NamedLine(name, value) + rest == n + (name + tail);
    FirstOctet(0x20, 0x07, |name|);
    PrefixInt.DecodeInvertsEncode(0x20, 0x07, |name|, name + tail);
    hide ParseLine, ParseValue, SetField, HeaderByName, PrefixInt.Decode, PrefixInt.Encode;
    ParseLiteralNameForm(n, name, tail, parts);
    ParseStringLiteral(value, rest, HeaderByName(name), parts);
  }

  lemma ParseLiteralNameForm(n: Bytes, name: Bytes, tail: Bytes, parts: Parts)
    requires n != [] && (0x20 <= n[0] <= 0x27 || 0x30 <= n[0] <= 0x37)
    requires PrefixInt.Decode(n + (name + tail), 0x07) == PrefixInt.Good(|name|, |n|)
    ensures ParseLine(n + (name + tail), parts)
         == Shift(ParseValue(tail, HeaderByName(name), parts), |n| + |name|)
  {
    hide SetField, HeaderByName, ParseValue, PrefixInt.Decode;
    var b := n + (name + tail);
    assert b[|n|..|n| + |name|] == name && b[|n| + |name|..] == tail;
    assert Literal(name, false) == name;
  }

  lemma ParseHuffmanNameForm(n: Bytes, name: Bytes, coded: Bytes, tail: Bytes, parts: Parts)
    requires n != [] && (0x28 <= n[0] <= 0x2F || 0x38 <= n[0] <= 0x3F)
    requires coded == HuffmanTable.Encode(name)
    requires PrefixInt.Decode(n + (coded + tail), 0x07) == PrefixInt.Good(|coded|, |n|)
    ensures ParseLine(n + (coded + tail), parts)
         == Shift(ParseValue(tail, HeaderByName(Cut(name)), parts), |n| + |coded|)
  {
    HuffmanTable.DecodesAppendixB(name, SCRATCH);
    hide SetField, HeaderByName, ParseValue, PrefixInt.Decode, HuffmanTable.Encode, Huffman.Decode;
    var b := n + (coded + tail);
    assert b[|n|..|n| + |coded|] == coded && b[|n| + |coded|..] == tail;
    assert Literal(coded, true) == Cut(name);
  }

  // ------------------------------------------------------ bits without effect

  /** The never-indexed bit of a line has no effect, and a Huffman-coded name means the name. */
  lemma SameReference(prefix: Byte, i: nat, value: Bytes, rest: Bytes, parts: Parts)
    requires prefix == 0x50 || prefix == 0x70
    requires i < STATIC_ENTRIES && Sized(value)
    ensures ParseLine(PrefixInt.Encode(prefix, 0x0F, i) + StringLiteral(value) + rest, parts)
         == ParseLine(ReferenceLine(i, value) + rest, parts)
  {
    var n, tail := PrefixInt.Encode(prefix, 0x0F, i), StringLiteral(value) + rest;
    FirstOctet(prefix, 0x0F, i);
    PrefixInt.DecodeInvertsEncode(prefix, 0x0F, i, tail);
    PrefixInt.EncodeLength(prefix, 0x50, 0x0F, i);
    hide ParseLine, ParseValue, SetField, StaticHeader, PrefixInt.Decode, PrefixInt.Encode, StringLiteral;
    assert n + StringLiteral(value) + rest == n + tail;
    ParseReferenceForm(n, i, tail, parts);
    ParseStringLiteral(value, rest, StaticHeader(i), parts);
    ParseReferenceLine(i, value, rest, parts);
  }

  lemma SameName(prefix: Byte, name: Bytes, value: Bytes, rest: Bytes, parts: Parts)
    requires prefix == 0x20 || prefix == 0x30
    requires Sized(name) && Sized(value)
    ensures ParseLine(PrefixInt.Encode(prefix, 0x07, |name|) + name + StringLiteral(value) + rest, parts)
         == ParseLine(NamedLine(name, value) + rest, parts)
  {
    var n, tail := PrefixInt.Encode(prefix, 0x07, |name|), StringLiteral(value) + rest;
    FirstOctet(prefix, 0x07, |name|);
    PrefixInt.DecodeInvertsEncode(prefix, 0x07, |name|, name + tail);
    PrefixInt.EncodeLength(prefix, 0x20, 0x07, |name|);
    hide ParseLine, ParseValue, SetField, HeaderByName, PrefixInt.Decode, PrefixInt.Encode, StringLiteral;
    assert n + name + StringLiteral(value) + rest == n + (name + tail);
    ParseLiteralNameForm(n, name, tail, parts);
    ParseStringLiteral(value, rest, HeaderByName(name), parts);
    ParseNamedLine(name, value, rest, parts);
  }

  /** A Huffman-coded name means what its first 256 octets mean. */
  lemma HuffmanNameMeansTheSame(prefix: Byte, name: Bytes, value: Bytes, rest: Bytes, parts: Parts)
    requires prefix == 0x28 || prefix == 0x38
    requires Sized(HuffmanTable.Encode(name)) && Sized(value)
    ensures var coded := HuffmanTable.Encode(name);
            var n := PrefixInt.Encode(prefix, 0x07, |coded|);
            var line := ParseLine(n + coded + StringLiteral(value) + rest, parts);
            match SetField(HeaderByName(Cut(name)), parts, value)
            case None => line == Failed
            case Some(p) => line == Next(p, |n| + |coded| + |StringLiteral(value)|)
  {
    hide HuffmanTable.Encode;
    var coded := HuffmanTable.Encode(name);
    var n, tail := PrefixInt.Encode(prefix, 0x07, |coded|), StringLiteral(value) + rest;
    FirstOctet(prefix, 0x07, |coded|);
    PrefixInt.DecodeInvertsEncode(prefix, 0x07, |coded|, coded + tail);
    hide ParseLine, ParseValue, SetField, HeaderByName, PrefixInt.Decode, PrefixInt.Encode, StringLiteral;
    assert n + coded + StringLiteral(value) + rest == n + (coded + tail);
    ParseHuffmanNameForm(n, name, coded, tail, parts);
    ParseStringLiteral(value, rest, HeaderByName(Cut(name)), parts);
  }

  /** Everything that refers to a dynamic table is refused. */
  lemma DynamicIsRefused(b: Bytes, parts: Parts)
    requires b != []
    requires b[0] < 0x20 || 0x40 <= b[0] < 0x50 || 0x60 <= b[0] < 0x70 || 0x80 <= b[0] < 0xC0
    ensures ParseLine(b, parts) == Failed
  {
  }

  predicate Settable(h: Header) {
    h != OriginH && h != OtherH
  }

  /** A field may not come twice. The test for a status is that its value is not 0, so a second
      status is refused if and only if the first one was not 0. */
  lemma DuplicateIsRefused(h: Header, parts: Parts, first: Bytes, second: Bytes)
    requires Settable(h) && SetField(h, parts, first).Some?
    ensures SetField(h, SetField(h, parts, first).value, second).None? <==> (h == StatusH ==> StatusValue(first) != 0)
  {
    hide StatusValue, Ascii;
  }
}
