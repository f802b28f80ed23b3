/** The close and drain capsules of a WebTransport session: what is sent, and what
    picowt_receive_capsule and the accumulator make of it. */
module SessionCapsule {
  import opened Bytes
  import opened Capsule
  import Varint
  import Writer

  const BUFFER_SIZE: nat := 1024

  function ErrorCode(code: nat): (s: Bytes)
    requires code < 0x1_0000_0000
    ensures |s| == 4
  {
    [code / 0x100_0000, code / 0x1_0000 % 0x100, code / 0x100 % 0x100, code % 0x100]
  }

  function CloseValue(code: nat, message: Bytes): Bytes
    requires code < 0x1_0000_0000
  {
    ErrorCode(code) + message
  }

  function Wire(ctype: nat, value: Bytes): Bytes {
    Varint.Encode(ctype) + Varint.Encode(|value|) + value
  }

  /** picowt_send_close_session_message: what goes to the stream, None when it fails. */
  method SendCloseSession(code: nat, message: Bytes) returns (sent: Option<Bytes>)
    requires code < 0x1_0000_0000 && 4 + |message| < Varint.LIMIT
    ensures sent.Some? <==> |Wire(CLOSE_SESSION, CloseValue(code, message))| <= 1024
    ensures sent.Some? ==> sent.value == Wire(CLOSE_SESSION, CloseValue(code, message))
  {
    hide Varint.Encode;
    var buf := new Byte[BUFFER_SIZE];
    var off := Varint.WtEncode(CLOSE_SESSION, buf, 0, BUFFER_SIZE);
    ghost var typeOctets := buf[..off];
    assert typeOctets == Varint.Encode(CLOSE_SESSION);
    var n := Varint.WtEncode(4 + |message|, buf, off, BUFFER_SIZE - off);
    ghost var header := typeOctets + Varint.Encode(4 + |message|);
    assert buf[..off] == typeOctets;
    assert buf[..off + n] == buf[..off] + buf[off..off + n];
    off := off + n;
    assert buf[..off] == header;
    if BUFFER_SIZE - off < 4 + |message| {
      return None;
    }
    Writer.CopyIn(buf, off, [code / 0x100_0000, code / 0x1_0000 % 0x100, code / 0x100 % 0x100, code % 0x100]);
    off := off + 4;
    if |message| > 0 {
      Writer.CopyIn(buf, off, message);
      off := off + |message|;
    }
    assert buf[..off] == header + (ErrorCode(code) + message);
    sent := Some(buf[..off]);
  }

  /** picowt_send_drain_session_message */
  method SendDrainSession() returns (sent: Bytes)
    ensures sent == Wire(DRAIN_SESSION, [])
  {
    hide Varint.Encode;
    var buf := new Byte[16];
    var off := Varint.WtEncode(DRAIN_SESSION, buf, 0, 16);
    ghost var typeOctets := buf[..off];
    var n := Varint.WtEncode(0, buf, off, 16 - off);
    assert buf[..off] == typeOctets;
    assert buf[..off + n] == buf[..off] + buf[off..off + n];
    assert Wire(DRAIN_SESSION, []) == Varint.Encode(DRAIN_SESSION) + Varint.Encode(0);
    sent := buf[..off + n];
  }

  /** What picowt_receive_capsule says of a capsule: a code and a message for a close. */
  datatype Received = Bad | Ignored | Closed(code: nat, message: Bytes)

  function CodeOf(p: Bytes): nat
    requires |p| >= 4
  {
    (p[0] as nat) * 0x100_0000 + (p[1] as nat) * 0x1_0000 + (p[2] as nat) * 0x100 + p[3]
  }

  /** The capsule at the head of the octets, if all of it is there. */
  function Meaning(bytes: Bytes): Received {
    match ProgressOf(bytes)
    case HeaderMissing => Bad
    case HeaderKnown(ctype, length, used) =>
      if |bytes| < used + length then Bad
      else if ctype != CLOSE_SESSION then Ignored
      else if length < 4 then Bad
      else Closed(CodeOf(bytes[used..]), bytes[used + 4..used + length])
  }

  /** The return value and the fields of the capsule for each meaning. */
  predicate Reports(m: Received, ret: int, errorCode: nat, errorMsg: Option<Bytes>) {
    match m
    case Bad => ret == -1
    case Ignored => ret == 0 && errorCode == 0 && errorMsg == None
    case Closed(code, message) =>
      ret == 0 && errorCode == code && errorMsg == if message == [] then None else Some(message)
  }

  /** picowt_receive_capsule: 0 with the fields of the capsule, -1 on a truncated one. */
  method ReceiveCapsule(bytes: Bytes) returns (ret: int, errorCode: nat, errorMsg: Option<Bytes>)
    ensures Reports(Meaning(bytes), ret, errorCode, errorMsg)
  {
    hide Varint.Parse, Varint.WtDecode, Meaning, Reports;
    ret, errorCode, errorMsg := -1, 0, None;
    MeaningOf(bytes);
    if |bytes| == 0 {
      return;
    }
    Varint.WtDecodeIsParse(bytes);
    var t := Varint.WtDecode(bytes);
    if t.Incomplete? {
      return;
    }
    var p := bytes[t.used..];
    Varint.WtDecodeIsParse(p);
    var l := Varint.WtDecode(p);
    if l.Incomplete? {
      return;
    }
    var value := p[l.used..];
    if |value| < l.value {
      return;
    }
    if t.value == CLOSE_SESSION {
      if l.value < 4 {
        return;
      }
      errorCode := (value[0] as nat) * 0x100_0000 + (value[1] as nat) * 0x1_0000 + (value[2] as nat) * 0x100 + value[3];
      if l.value > 4 {
        errorMsg := Some(value[4..l.value]);
      }
    }
    ret := 0;
  }

  /** The meaning along the decoding steps. */
  lemma MeaningOf(bytes: Bytes)
    ensures Reports(Bad, -1, 0, None)
    ensures bytes == [] || Varint.Parse(bytes).Incomplete? ==> Meaning(bytes) == Bad
    ensures Varint.Parse(bytes).Complete? ==> Varint.Parse(bytes).used <= |bytes| && Headed(bytes, Varint.Parse(bytes))
  {
    hide Varint.Value;
    if Varint.Parse(bytes).Complete? {
      var t := Varint.Parse(bytes);
      var p := bytes[t.used..];
      var l := Varint.Parse(p);
      if l.Complete? {
        var value := p[l.used..];
        assert value == bytes[t.used + l.used..];
        assert |value| >= l.value >= 4 ==> value[4..l.value] == bytes[t.used + l.used + 4..t.used + l.used + l.value];
      }
    }
  }

  predicate Headed(bytes: Bytes, t: Varint.Parsed)
    requires t.Complete? && t.used <= |bytes|
  {
    var p := bytes[t.used..];
    var l := Varint.Parse(p);
    && (l.Incomplete? ==> Meaning(bytes) == Bad)
    && (l.Complete? ==>
          && l.used <= |p|
          && var value := p[l.used..];
          && (|value| < l.value ==> Meaning(bytes) == Bad)
          && (|value| >= l.value && t.value != CLOSE_SESSION ==>
                Meaning(bytes) == Ignored && Reports(Ignored, 0, 0, None))
          && (|value| >= l.value && t.value == CLOSE_SESSION && l.value < 4 ==> Meaning(bytes) == Bad)
          && (|value| >= l.value && t.value == CLOSE_SESSION && l.value >= 4 ==>
                && Meaning(bytes) == Closed(CodeOf(value), value[4..l.value])
                && Reports(Meaning(bytes), 0, CodeOf(value), if l.value > 4 then Some(value[4..l.value]) else None)))
  }

  lemma CodeRoundTrip(code: nat)
    requires code < 0x1_0000_0000
    ensures CodeOf(ErrorCode(code)) == code
  {
    var a, b := code / 0x1_0000, code % 0x1_0000;
    assert code == a * 0x1_0000 + b && code / 0x100_0000 == a / 0x100;
    assert code / 0x100 % 0x100 == b / 0x100 && code % 0x100 == b % 0x100;
  }

  lemma WireIsCapsule(ctype: nat, value: Bytes)
    requires ctype < Varint.LIMIT && |value| < Varint.LIMIT
    ensures IsCapsule(Varint.Encode(ctype), Varint.Encode(|value|), value)
    ensures Varint.Value(Varint.Encode(ctype)) == ctype
  {
    Varint.EncodeParses(ctype, []);
    Varint.EncodeParses(|value|, []);
  }

  /** A close capsule: picowt_receive_capsule returns its code and
      message, and the accumulator, in any chunks, stores it with the octets of both. */
  lemma CloseRoundTrip(code: nat, message: Bytes, rest: Bytes, chunks: seq<Bytes>)
    requires code < 0x1_0000_0000 && 4 + |message| < Varint.LIMIT
    requires Join(chunks) == Wire(CLOSE_SESSION, CloseValue(code, message)) + rest
    ensures Meaning(Wire(CLOSE_SESSION, CloseValue(code, message)) + rest) == Closed(code, message)
    ensures var o := FeedAll([], chunks);
            && o.Done?
            && o.taken == Wire(CLOSE_SESSION, CloseValue(code, message))
            && o.used == |Wire(CLOSE_SESSION, CloseValue(code, message))|
            && var p := ProgressOf(o.taken);
               && p.HeaderKnown? && p.ctype == CLOSE_SESSION
               && p.headerLength <= |o.taken| && var value := o.taken[p.headerLength..];
               && p.length == |value| >= 4 && CodeOf(value) == code && value[4..] == message
  {
    hide Varint.Encode, Varint.Value, ProgressOf, FeedAll;
    var value := CloseValue(code, message);
    var wire := Wire(CLOSE_SESSION, value);
    var t, l := Varint.Encode(CLOSE_SESSION), Varint.Encode(|value|);
    WireIsCapsule(CLOSE_SESSION, value);
    CapsuleIsStored(t, l, value, rest, chunks);
    CodeRoundTrip(code);
    assert wire[|t + l|..] == value && value[4..] == message && value[..4] == ErrorCode(code);
    ProgressPrefix(wire, rest);
    var all := wire + rest;
    assert all[|t + l|..] == value + rest;
    assert all[|t + l| + 4..|t + l| + |value|] == message;
  }

  /** The drain capsule is understood by picowt_receive_capsule and never by the accumulator. */
  lemma DrainIsNotStored(rest: Bytes, chunks: seq<Bytes>)
    requires Join(chunks) == Wire(DRAIN_SESSION, []) + rest
    ensures Meaning(Wire(DRAIN_SESSION, []) + rest) == Ignored
    ensures FeedAll([], chunks) == Refused
  {
    hide Varint.Encode, Varint.Value, ProgressOf, FeedAll;
    var t, l := Varint.Encode(DRAIN_SESSION), Varint.Encode(0);
    WireIsCapsule(DRAIN_SESSION, []);
    assert Wire(DRAIN_SESSION, []) == t + l && t + l + [] == t + l;
    EmptyCapsuleIsRefused(t, l, rest, chunks);
    CapsuleProgress(t, l, []);
    ProgressPrefix(t + l, rest);
  }

  lemma CodeIsBigEndian(p: Bytes)
    requires |p| == 4
    ensures CodeOf(p) == Varint.BigEndian(p)
  {
    Varint.BigEndian4(p);
    assert p[..4] == p;
  }

  /** Any capsule at the head of the octets, whatever encodings its type and length have: a close with
      at least four octets gives its code in network order and the rest as message, a shorter one is an
      error, and every other type is passed over. */
  lemma MeaningOfCapsule(t: Bytes, l: Bytes, value: Bytes, rest: Bytes)
    requires IsCapsule(t, l, value)
    ensures var m := Meaning(t + l + value + rest);
            if Varint.Value(t) != 0x2843 then m == Ignored
            else if |value| < 4 then m == Bad
            else m == Closed(Varint.BigEndian(value[..4]), value[4..])
  {
    hide Varint.Value, Varint.BigEndian, ProgressOf;
    CapsuleProgress(t, l, value);
    ProgressPrefix(t + l + value, rest);
    var all := t + l + value + rest;
    if |value| >= 4 {
      var tail := all[|t + l|..];
      assert tail == value + rest && tail[..4] == value[..4];
      assert tail[0] == value[0] && tail[1] == value[1] && tail[2] == value[2] && tail[3] == value[3];
      CodeIsBigEndian(value[..4]);
      assert all[|t + l| + 4..|t + l| + |value|] == value[4..];
    }
  }

  /** Octets of a capsule of which some are still missing are an error. */
  lemma TruncatedIsBad(t: Bytes, l: Bytes, value: Bytes, k: nat)
    requires IsCapsule(t, l, value) && k < |t + l + value|
    ensures Meaning((t + l + value)[..k]) == Bad
  {
    hide Varint.Value, ProgressOf;
    var all := t + l + value;
    CapsuleProgress(t, l, value);
    assert all == all[..k] + all[k..];
    if ProgressOf(all[..k]).HeaderKnown? { ProgressPrefix(all[..k], all[k..]); }
  }

  /** The octets of a close capsule with code 0x01020304 and message "hi", and of a drain capsule. */
  lemma WireExamples()
    ensures Wire(CLOSE_SESSION, CloseValue(0x0102_0304, [0x68, 0x69]))
         == [0x68, 0x43, 0x06, 0x01, 0x02, 0x03, 0x04, 0x68, 0x69]
    ensures Wire(DRAIN_SESSION, []) == [0x80, 0x00, 0x78, 0xAE, 0x00]
  {
    EncodeIs(0x2843, [0x68, 0x43]);
    EncodeIs(0x78AE, [0x80, 0x00, 0x78, 0xAE]);
    EncodeIs(6, [0x06]);
    EncodeIs(0, [0x00]);
    hide Varint.Encode, ErrorCode;
    CodeExample();
    assert |CloseValue(0x0102_0304, [0x68, 0x69])| == 6;
  }

  lemma EncodeIs(v: nat, s: Bytes)
    requires v < Varint.LIMIT && s == Varint.Octets(v)
    ensures Varint.Encode(v) == s
  {
    Varint.EncodeIsOctets(v);
  }

  lemma CodeExample()
    ensures ErrorCode(0x0102_0304) == [0x01, 0x02, 0x03, 0x04]
  {
  }
}
