/** The SETTINGS codec (section 7.2.4 of RFC 9114): an encoder that reserves the
    length, fills it in afterwards and moves the payload, and its decoder. */
module Settings {
  import opened Bytes
  import opened Writer
  import Varint

  const FRAME_SETTINGS: nat := 0x4
  const TABLE_SIZE: nat := 0x1
  const BLOCKED_STREAMS: nat := 0x7
  const CONNECT_PROTOCOL: nat := 0x8
  const H3_DATAGRAM: nat := 0x33
  const MAX_SESSIONS: nat := 0xC671_706A
  const UINT64_MAX: nat := 0xFFFF_FFFF_FFFF_FFFF

  /** h3zero_settings_t; the last three members are one-bit fields. */
  datatype Settings = Settings(maxSessions: nat, tableSize: nat, maxHeaderListSize: nat, blockedStreams: nat,
                               connectProtocol: nat, h3Datagram: nat, received: bool)

  const NO_SETTINGS: Settings := Settings(0, 0, 0, 0, 0, 0, false)

  // ----------------------------------------------------------- specification

  /** A component equal to its default is not sent. */
  function Component(key: nat, value: nat, default: nat): Bytes {
    if value != default then Varint.Encode(key) + Varint.Encode(value) else []
  }

  function Components(s: Settings): Bytes {
    Component(TABLE_SIZE, s.tableSize, UINT64_MAX)
    + (Component(BLOCKED_STREAMS, s.blockedStreams, UINT64_MAX)
       + (Component(CONNECT_PROTOCOL, s.connectProtocol, 0)
          + (Component(H3_DATAGRAM, s.h3Datagram, 0)
             + Component(MAX_SESSIONS, s.maxSessions, 0))))
  }

  function Frame(s: Settings): Bytes {
    Varint.Encode(FRAME_SETTINGS) + Varint.Encode(|Components(s)|) + Components(s)
  }

  /** What the encoder accepts: values that a varint can carry, or the two defaults. */
  predicate Encodable(s: Settings) {
    && (s.tableSize < Varint.LIMIT || s.tableSize == UINT64_MAX)
    && (s.blockedStreams < Varint.LIMIT || s.blockedStreams == UINT64_MAX)
    && s.connectProtocol < 2 && s.h3Datagram < 2 && s.maxSessions < Varint.LIMIT
  }

  /** A decoded component; the one-bit members keep the low bit. */
  function Set(s: Settings, key: nat, value: nat): Settings {
    if key == TABLE_SIZE then s.(tableSize := value)
    else if key == BLOCKED_STREAMS then s.(blockedStreams := value)
    else if key == CONNECT_PROTOCOL then s.(connectProtocol := value % 2)
    else if key == H3_DATAGRAM then s.(h3Datagram := value % 2)
    else if key == MAX_SESSIONS then s.(maxSessions := value)
    else s
  }

  /** The settings after the components read, and whether the octets ended with one. */
  datatype Decoded = Decoded(settings: Settings, ok: bool)

  function DecodeComponents(b: Bytes, s: Settings): Decoded
    decreases |b|
  {
    if b == [] then Decoded(s, true)
    else
      match Varint.Parse(b)
      case Incomplete => Decoded(s, false)
      case Complete(key, n) =>
        match Varint.Parse(b[n..])
        case Incomplete => Decoded(s, false)
        case Complete(value, m) => DecodeComponents(b[n + m..], Set(s, key, value))
  }

  function Value(v: nat, default: nat, otherwise: nat): nat {
    if v == default then otherwise else v
  }

  lemma DecodeComponent(key: nat, value: nat, default: nat, rest: Bytes, s: Settings)
    requires key < Varint.LIMIT && (value != default ==> value < Varint.LIMIT)
    ensures DecodeComponents(Component(key, value, default) + rest, s)
         == DecodeComponents(rest, if value == default then s else Set(s, key, value))
  {
    if value == default {
      assert [] + rest == rest;
    } else {
      var k, v := Varint.Encode(key), Varint.Encode(value);
      var b := Component(key, value, default) + rest;
      hide Varint.Encode, Varint.Value;
      assert b == k + (v + rest);
      Varint.EncodeParses(key, v + rest);
      assert b[|k|..] == v + rest;
      Varint.EncodeParses(value, rest);
      assert b[|k| + |v|..] == rest;
    }
  }

  /** Round trip: the five settings come back from the encoding of any encodable
      settings; a table size or stream limit left at its default reads as zero. */
  lemma ComponentsRoundTrip(s: Settings)
    requires Encodable(s)
    ensures DecodeComponents(Components(s), NO_SETTINGS)
         == Decoded(Settings(s.maxSessions, Value(s.tableSize, UINT64_MAX, 0), 0,
                             Value(s.blockedStreams, UINT64_MAX, 0), s.connectProtocol, s.h3Datagram, false), true)
  {
    hide Component, DecodeComponents;
    var c5 := Component(MAX_SESSIONS, s.maxSessions, 0);
    var c4 := Component(H3_DATAGRAM, s.h3Datagram, 0) + c5;
    var c3 := Component(CONNECT_PROTOCOL, s.connectProtocol, 0) + c4;
    var c2 := Component(BLOCKED_STREAMS, s.blockedStreams, UINT64_MAX) + c3;
    var s1 := NO_SETTINGS.(tableSize := Value(s.tableSize, UINT64_MAX, 0));
    var s2 := s1.(blockedStreams := Value(s.blockedStreams, UINT64_MAX, 0));
    var s3 := s2.(connectProtocol := s.connectProtocol);
    var s4 := s3.(h3Datagram := s.h3Datagram);
    DecodeComponent(TABLE_SIZE, s.tableSize, UINT64_MAX, c2, NO_SETTINGS);
    DecodeComponent(BLOCKED_STREAMS, s.blockedStreams, UINT64_MAX, c3, s1);
    DecodeComponent(CONNECT_PROTOCOL, s.connectProtocol, 0, c4, s2);
    DecodeComponent(H3_DATAGRAM, s.h3Datagram, 0, c5, s3);
    DecodeComponent(MAX_SESSIONS, s.maxSessions, 0, [], s4);
    assert c5 + [] == c5;
    NothingToDecode(s4.(maxSessions := s.maxSessions));
  }

  lemma NothingToDecode(s: Settings)
    ensures DecodeComponents([], s) == Decoded(s, true)
  {
  }

  // ------------------------------------------------------------- the methods

  /** h3zero_settings_component_encode */
  method ComponentEncode(buf: array<Byte>, bytes: Cursor, max: nat, key: nat, value: nat, default: nat)
    returns (next: Cursor)
    requires max <= buf.Length && (bytes.At? ==> bytes.pos <= max)
    requires key < Varint.LIMIT && (value != default ==> value < Varint.LIMIT)
    modifies buf
    ensures Wrote(old(buf[..]), buf[..], bytes, max, Component(key, value, default), next)
    ensures bytes.Null? ==> buf[..] == old(buf[..])
  {
    next := bytes;
    if value != default {
      ghost var b0 := buf[..];
      var p1 := PutVarint(buf, bytes, max, key);
      ghost var b1 := buf[..];
      next := p1;
      if p1.At? {
        next := PutVarint(buf, p1, max, value);
      }
      WroteBoth(b0, b1, buf[..], bytes, p1, next, max, Varint.Encode(key), Varint.Encode(value));
    }
  }

  /** The five components one after the other. */
  method ComponentsEncode(buf: array<Byte>, bytes: Cursor, max: nat, s: Settings) returns (next: Cursor)
    requires max <= buf.Length && (bytes.At? ==> bytes.pos <= max) && Encodable(s)
    modifies buf
    ensures Wrote(old(buf[..]), buf[..], bytes, max, Components(s), next)
    ensures bytes.Null? ==> buf[..] == old(buf[..])
  {
    hide Wrote, Component;
    ghost var b0 := buf[..];
    var p1 := ComponentEncode(buf, bytes, max, TABLE_SIZE, s.tableSize, UINT64_MAX);
    ghost var b1 := buf[..];
    var p2 := ComponentEncode(buf, p1, max, BLOCKED_STREAMS, s.blockedStreams, UINT64_MAX);
    ghost var b2 := buf[..];
    var p3 := ComponentEncode(buf, p2, max, CONNECT_PROTOCOL, s.connectProtocol, 0);
    ghost var b3 := buf[..];
    var p4 := ComponentEncode(buf, p3, max, H3_DATAGRAM, s.h3Datagram, 0);
    ghost var b4 := buf[..];
    next := ComponentEncode(buf, p4, max, MAX_SESSIONS, s.maxSessions, 0);
    ghost var b5 := buf[..];
    var c5 := Component(MAX_SESSIONS, s.maxSessions, 0);
    var c4 := Component(H3_DATAGRAM, s.h3Datagram, 0) + c5;
    var c3 := Component(CONNECT_PROTOCOL, s.connectProtocol, 0) + c4;
    WroteBoth(b3, b4, b5, p3, p4, next, max, Component(H3_DATAGRAM, s.h3Datagram, 0), c5);
    WroteBoth(b2, b3, b5, p2, p3, next, max, Component(CONNECT_PROTOCOL, s.connectProtocol, 0), c4);
    WroteBoth(b1, b2, b5, p1, p2, next, max, Component(BLOCKED_STREAMS, s.blockedStreams, UINT64_MAX), c3);
    WroteBoth(b0, b1, b5, bytes, p1, next, max, Component(TABLE_SIZE, s.tableSize, UINT64_MAX),
      Component(BLOCKED_STREAMS, s.blockedStreams, UINT64_MAX) + c3);
  }

  lemma ShorterLength(v: nat, w: nat)
    requires v <= w
    ensures |Varint.Encode(v)| <= |Varint.Encode(w)|
  {
  }

  /** The actual length goes into the reserved octets and the components follow it. */
  method FillLength(buf: array<Byte>, ofLength: nat, afterLength: nat, end: nat, ghost text: Bytes) returns (next: nat)
    requires ofLength <= afterLength <= end <= buf.Length && buf[afterLength..end] == text
    requires end - afterLength < Varint.LIMIT && ofLength + |Varint.Encode(end - afterLength)| <= afterLength
    modifies buf
    ensures next == ofLength + |Varint.Encode(|text|)| + |text| <= end
    ensures buf[..ofLength] == old(buf[..ofLength])
    ensures buf[ofLength..next] == Varint.Encode(|text|) + text
  {
    hide Varint.Encode;
    var actualLength := end - afterLength;
    ghost var before := buf[..ofLength];
    var finalLength := PutVarint(buf, At(ofLength), afterLength, actualLength);
    var middle := finalLength.pos;
    ghost var written := buf[..middle];
    assert written == before + Varint.Encode(|text|);
    assert buf[afterLength..end] == buf[afterLength..][..actualLength] == text;
    if middle != afterLength {
      MoveDown(buf, middle, afterLength, actualLength);
    }
    next := middle + actualLength;
    assert buf[..middle] == written && buf[middle..next] == text;
    hide Wrote;
    FrameInPlace(buf[..], before, Varint.Encode(|text|), text, next);
  }

  /** The settings type, then a placeholder that is as long as the length can get. */
  method ReserveLength(buf: array<Byte>, start: nat, max: nat, lengthMax: nat) returns (next: Cursor, ofLength: nat)
    requires start <= max <= buf.Length && lengthMax < Varint.LIMIT
    modifies buf
    ensures next == if start + |Varint.Encode(FRAME_SETTINGS)| + |Varint.Encode(lengthMax)| <= max
                    then At(start + |Varint.Encode(FRAME_SETTINGS)| + |Varint.Encode(lengthMax)|) else Null
    ensures next.At? ==> ofLength == start + |Varint.Encode(FRAME_SETTINGS)|
                         && buf[..ofLength] == old(buf[..start]) + Varint.Encode(FRAME_SETTINGS)
  {
    hide Varint.Encode;
    ofLength := start;
    next := PutVarint(buf, At(start), max, FRAME_SETTINGS);
    if next.At? {
      ofLength := next.pos;
      ghost var prefix := buf[..ofLength];
      assert prefix == old(buf[..start]) + Varint.Encode(FRAME_SETTINGS);
      next := PutVarint(buf, next, max, lengthMax);
    }
  }

  /** h3zero_settings_encode. The length of the room is written first to reserve
      octets, so the encoder needs room for that longer form, although what it
      leaves behind is the exact frame. */
  method SettingsEncode(buf: array<Byte>, start: nat, max: nat, s: Settings) returns (next: Cursor)
    requires start <= max <= buf.Length && max - start < Varint.LIMIT && Encodable(s)
    modifies buf
    ensures next.At? <==>
              start + |Varint.Encode(FRAME_SETTINGS)| + |Varint.Encode(max - start)| + |Components(s)| <= max
    ensures next.At? ==> next == At(start + |Frame(s)|) && next.pos <= max
                         && buf[..start] == old(buf[..start]) && buf[start..next.pos] == Frame(s)
  {
    hide Varint.Encode, Components, Frame;
    var lengthMax := max - start;
    var ofLength;
    ghost var before := buf[..start];
    next, ofLength := ReserveLength(buf, start, max, lengthMax);
    if next.Null? {
      return;
    }
    var afterLength := next.pos;
    ghost var prefix, reserved := buf[..ofLength], buf[..afterLength];
    next := ComponentsEncode(buf, next, max, s);
    if next.At? {
      assert buf[..afterLength] == reserved && buf[..ofLength] == reserved[..ofLength] == prefix;
      hide Wrote;
      ShorterLength(next.pos - afterLength, lengthMax);
      var end := FillLength(buf, ofLength, afterLength, next.pos, Components(s));
      next := At(end);
      FrameInPlace(buf[..], before, Varint.Encode(FRAME_SETTINGS), buf[ofLength..end], end);
      FrameForms(s);
    }
  }

  lemma FrameInPlace(all: Bytes, before: Bytes, t: Bytes, rest: Bytes, end: nat)
    requires |before| + |t| <= end <= |all|
    requires all[..|before| + |t|] == before + t && all[|before| + |t|..end] == rest
    ensures all[..|before|] == before && all[|before|..end] == t + rest
  {
    assert all[..|before|] == all[..|before| + |t|][..|before|];
    assert all[|before|..end] == all[..|before| + |t|][|before|..] + all[|before| + |t|..end];
  }

  lemma FrameForms(s: Settings)
    ensures Frame(s) == Varint.Encode(FRAME_SETTINGS) + (Varint.Encode(|Components(s)|) + Components(s))
  {
    hide Varint.Encode, Components;
  }

  lemma DecodeOne(b: Bytes, s: Settings)
    requires b != []
    ensures Varint.Parse(b).Incomplete? ==> DecodeComponents(b, s) == Decoded(s, false)
    ensures Varint.Parse(b).Complete? ==>
              var n := Varint.Parse(b).used;
              && n <= |b|
              && (Varint.Parse(b[n..]).Incomplete? ==> DecodeComponents(b, s) == Decoded(s, false))
              && (Varint.Parse(b[n..]).Complete? ==>
                    var m := Varint.Parse(b[n..]).used;
                    && n + m <= |b|
                    && DecodeComponents(b, s)
                       == DecodeComponents(b[n + m..], Set(s, Varint.Parse(b).value, Varint.Parse(b[n..]).value)))
  {
  }

  lemma DecodeNone(s: Settings)
    ensures DecodeComponents([], s) == Decoded(s, true)
  {
  }

  /** h3zero_settings_components_decode: NULL unless the octets end with a component. */
  method ComponentsDecode(bytes: Bytes, before: Settings) returns (next: Cursor, settings: Settings)
    ensures settings == DecodeComponents(bytes, before).settings
    ensures next == if DecodeComponents(bytes, before).ok then At(|bytes|) else Null
  {
    hide *;
    settings := before;
    next := At(0);
    ghost var goal := DecodeComponents(bytes, before);
    assert bytes[0..] == bytes;
    while next.At? && next.pos < |bytes|
      invariant next.At? ==> next.pos <= |bytes| && goal == DecodeComponents(bytes[next.pos..], settings)
      invariant next.Null? ==> goal == Decoded(settings, false)
      decreases if next.At? then |bytes| - next.pos + 1 else 0
    {
      var here := next.pos;
      DecodeOne(bytes[here..], settings);
      var key, value;
      next, key := FramesDecode(bytes, here);
      if next.At? {
        var middle := next.pos;
        assert bytes[here..][middle - here..] == bytes[middle..];
        next, value := FramesDecode(bytes, middle);
        if next.At? {
          assert bytes[here..][next.pos - here..] == bytes[next.pos..];
          settings := Set(settings, key, value);
        }
      }
    }
    if next.At? {
      assert bytes[next.pos..] == [];
      DecodeNone(settings);
    }
  }

  /** picoquic_frames_varint_decode */
  method FramesDecode(bytes: Bytes, start: nat) returns (next: Cursor, n64: nat)
    requires start <= |bytes|
    ensures next.Null? ==> Varint.Parse(bytes[start..]) == Varint.Incomplete
    ensures next.At? ==> start < next.pos <= |bytes|
                         && Varint.Parse(bytes[start..]) == Varint.Complete(n64, next.pos - start)
  {
    hide Varint.Value;
    n64 := 0;
    if start == |bytes| {
      return Null, 0;
    }
    var length;
    length, n64 := Varint.Decode(bytes[start..], |bytes| - start);
    next := if length == 0 then Null else At(start + length);
  }

  /** A SETTINGS frame read in one go. */
  datatype FrameResult = BadFrame | GoodFrame(settings: Settings, used: nat)

  function DecodeFrame(b: Bytes): FrameResult {
    if b == [] || b[0] != 0x04 then BadFrame
    else
      match Varint.Parse(b[1..])
      case Incomplete => BadFrame
      case Complete(length, n) =>
        if 1 + n + length > |b| then BadFrame
        else
          var d := DecodeComponents(b[1 + n..1 + n + length], NO_SETTINGS);
          if d.ok then GoodFrame(d.settings, 1 + n + length) else BadFrame
  }

  /** h3zero_settings_decode */
  method SettingsDecode(bytes: Bytes) returns (next: Cursor, settings: Settings)
    requires bytes != []
    ensures match DecodeFrame(bytes)
            case BadFrame => next == Null
            case GoodFrame(s, used) => next == At(used) && settings == s
  {
    settings := NO_SETTINGS;
    if bytes[0] != 0x04 {
      return Null, settings;
    }
    var headerLength;
    next, headerLength := FramesDecode(bytes, 1);
    if next.At? {
      var settingsEnd := next.pos + headerLength;
      if settingsEnd > |bytes| {
        next := Null;
      } else {
        var start := next.pos;
        next, settings := ComponentsDecode(bytes[start..settingsEnd], settings);
        if next.At? {
          next := At(start + next.pos);
        }
      }
    }
  }

  /** Round trip of the frame: the decoder takes exactly the octets of the encoder
      and gives the settings back, whatever follows. */
  lemma FrameRoundTrip(s: Settings, rest: Bytes)
    requires Encodable(s) && |Components(s)| < Varint.LIMIT
    ensures DecodeFrame(Frame(s) + rest)
         == GoodFrame(Settings(s.maxSessions, Value(s.tableSize, UINT64_MAX, 0), 0,
                               Value(s.blockedStreams, UINT64_MAX, 0), s.connectProtocol, s.h3Datagram, false),
                      |Frame(s)|)
  {
    var c := Components(s);
    var l := Varint.Encode(|c|);
    var t := Varint.Encode(FRAME_SETTINGS);
    SettingsTypeOctet();
    FrameForm(s, rest);
    hide *;
    ComponentsRoundTrip(s);
    Varint.EncodeParses(|c|, c + rest);
    Slices(t, l, c, rest);
    DecodeFrameForm(t + (l + (c + rest)), |l|, |c|);
  }

  lemma SettingsTypeOctet()
    ensures Varint.Encode(FRAME_SETTINGS) == [0x04]
  {
    Varint.EncodeIsOctets(FRAME_SETTINGS);
  }

  lemma FrameForm(s: Settings, rest: Bytes)
    ensures var t, c := Varint.Encode(FRAME_SETTINGS), Components(s);
            var l := Varint.Encode(|c|);
            Frame(s) + rest == t + (l + (c + rest)) && |Frame(s)| == |t| + |l| + |c|
  {
    hide Varint.Encode, Components;
  }

  lemma Slices(t: Bytes, l: Bytes, c: Bytes, rest: Bytes)
    requires |t| == 1
    ensures var b := t + (l + (c + rest)); b[1..] == l + (c + rest) && b[1 + |l|..1 + |l| + |c|] == c
  {
  }

  lemma DecodeFrameForm(b: Bytes, n: nat, length: nat)
    requires b != [] && b[0] == 0x04 && Varint.Parse(b[1..]) == Varint.Complete(length, n) && 1 + n + length <= |b|
    ensures var d := DecodeComponents(b[1 + n..1 + n + length], NO_SETTINGS);
            DecodeFrame(b) == if d.ok then GoodFrame(d.settings, 1 + n + length) else BadFrame
  {
    hide Varint.Parse, DecodeComponents;
  }

  // --------------------------------------------------- any list of components

  /** A component in any encoding of its key and its value. */
  datatype Pair = Pair(keyOctets: Bytes, valueOctets: Bytes) {
    predicate Valid() {
      Varint.IsVarint(keyOctets) && Varint.IsVarint(valueOctets)
    }

    function Key(): nat
      requires Valid()
    {
      Varint.Value(keyOctets)
    }

    function Value(): nat
      requires Valid()
    {
      Varint.Value(valueOctets)
    }
  }

  predicate AllValid(pairs: seq<Pair>) {
    forall p | p in pairs :: p.Valid()
  }

  function Text(pairs: seq<Pair>): Bytes {
    if pairs == [] then [] else pairs[0].keyOctets + (pairs[0].valueOctets + Text(pairs[1..]))
  }

  /** The value of the last component with a key, or what was there before. */
  function Final(pairs: seq<Pair>, key: nat, before: nat): nat
    requires AllValid(pairs)
  {
    if pairs == [] then before
    else Final(pairs[1..], key, if pairs[0].Key() == key then pairs[0].Value() else before)
  }

  /** The low bit of it. */
  function FinalBit(pairs: seq<Pair>, key: nat, before: nat): nat
    requires AllValid(pairs)
  {
    if pairs == [] then before
    else FinalBit(pairs[1..], key, if pairs[0].Key() == key then pairs[0].Value() % 2 else before)
  }

  lemma DecodePair(p: Pair, rest: Bytes, s: Settings)
    requires p.Valid()
    ensures DecodeComponents(p.keyOctets + (p.valueOctets + rest), s)
         == DecodeComponents(rest, Set(s, p.Key(), p.Value()))
  {
    var k, v := p.keyOctets, p.valueOctets;
    var b := k + (v + rest);
    Varint.VarintParses(k, v + rest);
    Varint.VarintParses(v, rest);
    hide Varint.Value, Varint.Parse, Set;
    assert b[|k|..] == v + rest && b[|k| + |v|..] == rest;
  }

  /** What any components say, in any encoding, any order and any number: each of the five settings
      has the value of its last component, the two flags its low bit; no other key changes anything. */
  lemma {:induction false} DecodesPairs(pairs: seq<Pair>, s: Settings)
    requires AllValid(pairs)
    ensures DecodeComponents(Text(pairs), s)
         == Decoded(Settings(Final(pairs, 0xC671_706A, s.maxSessions), Final(pairs, 0x1, s.tableSize),
                             s.maxHeaderListSize, Final(pairs, 0x7, s.blockedStreams),
                             FinalBit(pairs, 0x8, s.connectProtocol), FinalBit(pairs, 0x33, s.h3Datagram),
                             s.received), true)
    decreases |pairs|
  {
    hide DecodeComponents, Varint.Value, Varint.IsVarint;
    if pairs == [] {
      DecodeNone(s);
    } else {
      var p := pairs[0];
      DecodePair(p, Text(pairs[1..]), s);
      DecodesPairs(pairs[1..], Set(s, p.Key(), p.Value()));
    }
  }

  /** Only the five keys matter. */
  predicate Known(key: nat) {
    key == 0x1 || key == 0x7 || key == 0x8 || key == 0x33 || key == 0xC671_706A
  }

  /** A component with another key may stand anywhere. */
  lemma {:induction false} UnknownKeyIsIgnored(before: seq<Pair>, p: Pair, after: seq<Pair>, s: Settings)
    requires AllValid(before) && p.Valid() && AllValid(after) && !Known(p.Key())
    ensures DecodeComponents(Text(before + [p] + after), s) == DecodeComponents(Text(before + after), s)
    decreases |before|
  {
    hide DecodeComponents, Varint.Value, Varint.IsVarint;
    if before == [] {
      assert before + [p] + after == [p] + after && ([p] + after)[1..] == after && before + after == after;
      DecodePair(p, Text(after), s);
      UnknownKey(s, p.Key(), p.Value());
    } else {
      var q := before[0];
      assert (before + [p] + after)[1..] == before[1..] + [p] + after;
      assert (before + after)[1..] == before[1..] + after;
      DecodePair(q, Text(before[1..] + [p] + after), s);
      DecodePair(q, Text(before[1..] + after), s);
      UnknownKeyIsIgnored(before[1..], p, after, Set(s, q.Key(), q.Value()));
    }
  }

  lemma UnknownKey(s: Settings, key: nat, value: nat)
    requires !Known(key)
    ensures Set(s, key, value) == s
  {
  }

  /** The frame that the server sends by default: no dynamic table, no blocked streams, CONNECT and
      datagrams enabled; its last component has a key that the decoder does not know. */
  lemma DefaultFrame()
    ensures DecodeFrame([0x04, 0x0D, 0x01, 0x00, 0x07, 0x00, 0x08, 0x01, 0x33, 0x01, 0xAB, 0x60, 0x37, 0x42, 0x01])
         == GoodFrame(Settings(0, 0, 0, 0, 1, 1, false), 15)
  {
    var b: Bytes := [0x04, 0x0D, 0x01, 0x00, 0x07, 0x00, 0x08, 0x01, 0x33, 0x01, 0xAB, 0x60, 0x37, 0x42, 0x01];
    var payload: Bytes := [0x01, 0x00, 0x07, 0x00, 0x08, 0x01, 0x33, 0x01, 0xAB, 0x60, 0x37, 0x42, 0x01];
    assert b[1..] == [0x0D] + payload && b[2..15] == payload;
    OneOctet(0x0D);
    Varint.VarintParses([0x0D], payload);
    DefaultPayload(payload);
    hide Varint.Value, Varint.Parse, Varint.IsVarint, DecodeComponents;
    DecodeFrameForm(b, 1, 13);
  }

  /** The octets of a frame with all flags, no dynamic table, no blocked streams and one session. */
  lemma FrameExample()
    ensures Frame(Settings(1, 0, 0, 0, 1, 1, false))
         == [0x04, 0x11, 0x01, 0x00, 0x07, 0x00, 0x08, 0x01, 0x33, 0x01,
             0xC0, 0x00, 0x00, 0x00, 0xC6, 0x71, 0x70, 0x6A, 0x01]
    ensures Frame(Settings(0, UINT64_MAX, 0, UINT64_MAX, 0, 0, false)) == [0x04, 0x00]
  {
    hide Varint.Encode, Component, Components, Frame;
    SmallEncoded(0x04); SmallEncoded(0x11); SmallEncoded(0x00);
    FullComponents();
    EmptyComponents();
    FrameForms(Settings(1, 0, 0, 0, 1, 1, false));
    FrameForms(Settings(0, UINT64_MAX, 0, UINT64_MAX, 0, 0, false));
  }

  lemma FullComponents()
    ensures Components(Settings(1, 0, 0, 0, 1, 1, false))
         == [0x01, 0x00, 0x07, 0x00, 0x08, 0x01, 0x33, 0x01,
             0xC0, 0x00, 0x00, 0x00, 0xC6, 0x71, 0x70, 0x6A, 0x01]
  {
    SmallComponent(0x1, 0, UINT64_MAX);
    SmallComponent(0x7, 0, UINT64_MAX);
    SmallComponent(0x8, 1, 0);
    SmallComponent(0x33, 1, 0);
    SessionsComponent();
    hide Component;
  }

  lemma EmptyComponents()
    ensures Components(Settings(0, UINT64_MAX, 0, UINT64_MAX, 0, 0, false)) == []
  {
  }

  lemma SmallComponent(key: nat, value: nat, default: nat)
    requires key < 0x40 && value < 0x40 && value != default
    ensures Component(key, value, default) == [key, value]
  {
    SmallEncoded(key);
    SmallEncoded(value);
    hide Varint.Encode;
  }

  lemma SessionsComponent()
    ensures Component(0xC671_706A, 1, 0) == [0xC0, 0x00, 0x00, 0x00, 0xC6, 0x71, 0x70, 0x6A, 0x01]
  {
    SessionsKeyEncoded();
    SmallEncoded(1);
    hide Varint.Encode;
  }

  lemma SmallEncoded(v: nat)
    requires v < 0x40
    ensures Varint.Encode(v) == [v]
  {
    Varint.EncodeIsOctets(v);
  }

  lemma SessionsKeyEncoded()
    ensures Varint.Encode(0xC671_706A) == [0xC0, 0x00, 0x00, 0x00, 0xC6, 0x71, 0x70, 0x6A]
  {
    Varint.EncodeIsOctets(0xC671_706A);
    hide Varint.Encode;
  }

  lemma OneOctet(v: Byte)
    requires v < 0x40
    ensures Varint.IsVarint([v]) && Varint.Value([v]) == v
  {
    Varint.EncodeIsOctets(v);
    Varint.EncodeParses(v, []);
  }

  lemma FourOctets(b: Bytes)
    requires |b| == 4 && 0x80 <= b[0] < 0xC0
    ensures Varint.IsVarint(b)
  {
  }

  lemma DecodeSmall(k: Byte, v: Byte, rest: Bytes, s: Settings)
    requires k < 0x40 && v < 0x40
    ensures DecodeComponents([k, v] + rest, s) == DecodeComponents(rest, Set(s, k, v))
  {
    OneOctet(k);
    OneOctet(v);
    hide Varint.Value, Varint.IsVarint, DecodeComponents, Set;
    DecodePair(Pair([k], [v]), rest, s);
    assert [k, v] + rest == [k] + ([v] + rest);
  }

  lemma DecodeUnknown(rest: Bytes, s: Settings)
    requires rest == [0xAB, 0x60, 0x37, 0x42, 0x01]
    ensures DecodeComponents(rest, s) == Decoded(s, true)
  {
    var key: Bytes := [0xAB, 0x60, 0x37, 0x42];
    UnknownDefaultKey(key);
    OneOctet(0x01);
    hide Varint.Value, Varint.IsVarint, DecodeComponents, Set, Known;
    DecodePair(Pair(key, [0x01]), [], s);
    UnknownKey(s, Varint.Value(key), 1);
    DecodeNone(s);
    assert rest == key + ([0x01] + []);
  }

  lemma DefaultPayload(payload: Bytes)
    requires payload == [0x01, 0x00, 0x07, 0x00, 0x08, 0x01, 0x33, 0x01, 0xAB, 0x60, 0x37, 0x42, 0x01]
    ensures DecodeComponents(payload, NO_SETTINGS) == Decoded(Settings(0, 0, 0, 0, 1, 1, false), true)
  {
    hide DecodeComponents;
    var s1 := NO_SETTINGS.(connectProtocol := 1);
    DecodeSmall(0x01, 0x00, payload[2..], NO_SETTINGS);
    DecodeSmall(0x07, 0x00, payload[4..], NO_SETTINGS);
    DecodeSmall(0x08, 0x01, payload[6..], NO_SETTINGS);
    DecodeSmall(0x33, 0x01, payload[8..], s1);
    DecodeUnknown(payload[8..], s1.(h3Datagram := 1));
    assert payload == [0x01, 0x00] + payload[2..] && payload[2..] == [0x07, 0x00] + payload[4..];
    assert payload[4..] == [0x08, 0x01] + payload[6..] && payload[6..] == [0x33, 0x01] + payload[8..];
  }

  lemma UnknownDefaultKey(key: Bytes)
    requires key == [0xAB, 0x60, 0x37, 0x42]
    ensures Varint.IsVarint(key) && !Known(Varint.Value(key))
  {
    Varint.OctetsParse(0x2B60_3742, key);
    assert key[..4] == key;
  }
}
