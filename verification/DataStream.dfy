/** The data stream of HTTP/3 (sections 4.1 and 7.1 of RFC 9114), one octet at a
    time: the reference that the chunk-driven parser is proved against. */
module DataStream {
  import opened Bytes
  import Varint
  import Qpack

  const DATA: nat := 0x0
  const HEADERS: nat := 0x1
  const CANCEL_PUSH: nat := 0x3
  const SETTINGS: nat := 0x4
  const PUSH_PROMISE: nat := 0x5
  const GOAWAY: nat := 0x7
  const MAX_PUSH_ID: nat := 0xD
  const WEBTRANSPORT_STREAM: nat := 0x41

  const GENERAL_PROTOCOL_ERROR: nat := 0x0101
  const INTERNAL_ERROR: nat := 0x0102
  const FRAME_UNEXPECTED: nat := 0x0105
  const FRAME_ERROR: nat := 0x0106
  /** Not a code: the C parser read past its static table, and anything may follow. */
  const UNDEFINED: nat := 0

  const MAX_HEADERS: nat := 0x1_0000
  const UINT64_MAX: nat := 0xFFFF_FFFF_FFFF_FFFF

  /** What is live in h3zero_data_stream_state_t: the header octets read so far
      without the stale ones behind them, the payload octets read so far, the flags. */
  datatype State = State(
    hdr: Bytes, parsed: bool, ftype: nat, length: nat, read: nat, frame: Option<Bytes>,
    headerFound: bool, dataFound: bool, trailerFound: bool, webTransport: bool,
    controlStreamId: nat, header: Qpack.Parts, trailer: Qpack.Parts)

  const INITIAL: State :=
    State([], false, 0, 0, 0, None, false, false, false, false, UINT64_MAX, Qpack.NO_PARTS, Qpack.NO_PARTS)

  /** Still running with some DATA octets delivered, or stopped with an error. */
  datatype Outcome = Run(state: State, data: Bytes) | Stop(error: nat, data: Bytes)

  // -------------------------------------------------------------- one octet

  predicate TypeRead(hdr: Bytes) {
    hdr != [] && |hdr| >= Varint.Length(hdr[0])
  }

  predicate HeaderRead(hdr: Bytes) {
    TypeRead(hdr) &&
    var n := Varint.Length(hdr[0]);
    |hdr| > n && |hdr| >= n + Varint.Length(hdr[n])
  }

  function TypeOf(hdr: Bytes): nat
    requires TypeRead(hdr)
  {
    Varint.Value(hdr[..Varint.Length(hdr[0])])
  }

  function LengthOf(hdr: Bytes): nat
    requires HeaderRead(hdr)
  {
    var n := Varint.Length(hdr[0]);
    Varint.Value(hdr[n..n + Varint.Length(hdr[n])])
  }

  /** The frame type is known as soon as its octets are there. */
  function Refresh(s: State): State {
    if TypeRead(s.hdr) then s.(ftype := TypeOf(s.hdr)) else s
  }

  /** Check the type and length of a frame whose header is complete. */
  function Classify(s: State): Outcome
    requires HeaderRead(s.hdr)
  {
    var s1 := s.(length := LengthOf(s.hdr), read := 0, parsed := true);
    if s.ftype == DATA then
      if !s.headerFound || s.trailerFound || s.webTransport then Stop(FRAME_UNEXPECTED, []) else Run(s1, [])
    else if s.ftype == HEADERS then
      if s.headerFound && (!s.dataFound || s.trailerFound || s.webTransport) then Stop(FRAME_UNEXPECTED, [])
      else if s1.length > MAX_HEADERS then Stop(INTERNAL_ERROR, [])
      else Run(s1, [])
    else if s.ftype == WEBTRANSPORT_STREAM then
      if s.headerFound then Stop(FRAME_UNEXPECTED, [])
      else Run(s1.(headerFound := true, webTransport := true, controlStreamId := s1.length, length := 0), [])
    else if s.ftype == CANCEL_PUSH || s.ftype == GOAWAY || s.ftype == MAX_PUSH_ID then
      Stop(GENERAL_PROTOCOL_ERROR, [])
    else if s.ftype == SETTINGS then Stop(FRAME_UNEXPECTED, [])
    else Run(s1, [])
  }

  function TakeHeader(s: State, b: Byte): Outcome {
    var s1 := Refresh(s.(hdr := s.hdr + [b]));
    if HeaderRead(s1.hdr) then Classify(s1) else Run(s1, [])
  }

  function Content(s: State): Bytes {
    if s.frame.Some? then s.frame.value else []
  }

  /** All octets of the frame are there: parse a HEADERS frame, go back to reading a header. */
  function Finish(s: State): Outcome {
    var s1 := s.(parsed := false, hdr := []);
    if s.ftype == HEADERS then
      match Qpack.ParseBlock(Content(s))
      case Rejected => Stop(FRAME_ERROR, [])
      case OffTable => Stop(UNDEFINED, [])
      case Parsed(parts) =>
        if s.headerFound then Run(s1.(frame := None, trailerFound := true, trailer := parts), [])
        else Run(s1.(frame := None, headerFound := true, header := parts, trailerFound := false), [])
    else if s.ftype == DATA then Run(s1.(dataFound := true), [])
    else Run(s1, [])
  }

  /** Payload octets are stored for HEADERS and counted for every frame. */
  function Absorb(s: State, bs: Bytes): State {
    var s1 := s.(read := s.read + |bs|);
    if s.ftype == HEADERS then s1.(frame := Some(Content(s) + bs)) else s1
  }

  function Delivered(s: State, bs: Bytes): Bytes {
    if s.ftype == DATA then bs else []
  }

  function FinishIfFull(s: State): Outcome {
    if s.read >= s.length then Finish(s) else Run(s, [])
  }

  function Prepend(data: Bytes, o: Outcome): Outcome {
    match o
    case Run(s, d) => Run(s, data + d)
    case Stop(e, d) => Stop(e, data + d)
  }

  function TakePayload(s: State, b: Byte): Outcome {
    Prepend(Delivered(s, [b]), FinishIfFull(Absorb(s, [b])))
  }

  /** A frame with nothing left to read, such as a zero-length one, is finished
      before the next octet is looked at. */
  function Settle(s: State): Outcome {
    if s.parsed && !s.webTransport then FinishIfFull(s) else Run(s, [])
  }

  function Take(s: State, b: Byte): Outcome {
    if !s.parsed then TakeHeader(s, b)
    else if s.webTransport then Run(s, [b])
    else TakePayload(s, b)
  }

  function Step(s: State, b: Byte): Outcome {
    match Settle(s)
    case Stop(e, d) => Stop(e, d)
    case Run(s1, _) => Take(s1, b)
  }

  function Then(o: Outcome, bs: Bytes): Outcome
    decreases |bs|, 1
  {
    match o
    case Stop(e, d) => o
    case Run(s, d) => Prepend(d, Feed(s, bs))
  }

  function Feed(s: State, bs: Bytes): Outcome
    decreases |bs|, 0
  {
    if bs == [] then Run(s, []) else Then(Step(s, bs[0]), bs[1..])
  }

  // ------------------------------------------------------- chunk invariance

  lemma PrependPrepend(a: Bytes, b: Bytes, o: Outcome)
    ensures Prepend(a, Prepend(b, o)) == Prepend(a + b, o)
  {
    assert a + (b + o.data) == a + b + o.data;
  }

  lemma PrependNothing(o: Outcome)
    ensures Prepend([], o) == o
  {
  }

  /** Feeding a then b is feeding a ++ b: state, data and error code. */
  lemma {:induction false} FeedAppend(s: State, a: Bytes, b: Bytes)
    ensures Feed(s, a + b) == Then(Feed(s, a), b)
    decreases |a|
  {
    if a == [] {
      assert a + b == b;
      PrependNothing(Feed(s, b));
    } else {
      hide Step;
      assert (a + b)[0] == a[0] && (a + b)[1..] == a[1..] + b;
      var o := Step(s, a[0]);
      if o.Run? {
        FeedAppend(o.state, a[1..], b);
        var rest := Feed(o.state, a[1..]);
        if rest.Run? {
          PrependPrepend(o.data, rest.data, Feed(rest.state, b));
        }
      }
    }
  }

  function FeedAll(s: State, chunks: seq<Bytes>): Outcome
    decreases |chunks|
  {
    if chunks == [] then Run(s, [])
    else
      match Feed(s, chunks[0])
      case Stop(e, d) => Stop(e, d)
      case Run(s1, d) => Prepend(d, FeedAll(s1, chunks[1..]))
  }

  /** How the network cut the stream never matters. */
  lemma {:induction false} ChunkingNeverMatters(s: State, chunks: seq<Bytes>)
    ensures FeedAll(s, chunks) == Feed(s, Join(chunks))
    decreases |chunks|
  {
    if chunks != [] {
      FeedAppend(s, chunks[0], Join(chunks[1..]));
      var o := Feed(s, chunks[0]);
      if o.Run? {
        ChunkingNeverMatters(o.state, chunks[1..]);
      }
    }
  }

  // ------------------------------------------------ several octets at a time

  /** What holds of the state between two calls. */
  predicate Wf(s: State) {
    && (s.parsed ==> HeaderRead(s.hdr))
    && (!s.parsed ==> !HeaderRead(s.hdr) && s.frame.None? && !s.webTransport)
    && (s.parsed && !s.webTransport ==> s.read <= s.length)
    && (s.parsed && s.ftype == HEADERS ==> s.length <= MAX_HEADERS && (s.frame.None? ==> s.read == 0))
    && (s.frame.Some? ==> s.ftype == HEADERS && |s.frame.value| == s.read)
    && (s.webTransport ==> s.headerFound && s.ftype == WEBTRANSPORT_STREAM)
  }

  lemma SettledFeed(s: State, bs: Bytes)
    requires bs != [] && Settle(s).Run?
    ensures Settle(Settle(s).state) == Run(Settle(s).state, [])
    ensures Feed(s, bs) == Feed(Settle(s).state, bs)
  {
  }

  /** A run of payload octets acts like one absorption. */
  lemma {:induction false} FeedPayload(s: State, bs: Bytes)
    requires Wf(s) && s.parsed && !s.webTransport
    requires bs != [] && s.read + |bs| <= s.length
    ensures Feed(s, bs) == Prepend(Delivered(s, bs), FinishIfFull(Absorb(s, bs)))
    decreases |bs|
  {
    hide Finish, HeaderRead, Feed, Wf, Absorb, Delivered, TakePayload, FinishIfFull;
    var b, rest := bs[0], bs[1..];
    var s1 := Absorb(s, [b]);
    assert [b] + rest == bs;
    FeedPayloadStep(s, bs);
    TakeOne(s, b);
    if rest == [] {
      assert bs == [b];
      ThenNothing(TakePayload(s, b));
    } else {
      FeedPayload(s1, rest);
      AbsorbTwice(s, b, rest);
      PrependPrepend(Delivered(s, [b]), Delivered(s1, rest), FinishIfFull(Absorb(s, bs)));
    }
  }

  lemma AbsorbTwice(s: State, b: Byte, rest: Bytes)
    ensures var s1 := Absorb(s, [b]);
            Absorb(s1, rest) == Absorb(s, [b] + rest)
            && Delivered(s, [b]) + Delivered(s1, rest) == Delivered(s, [b] + rest)
  {
    hide HeaderRead, Qpack.ParseBlock;
    var all := [b] + rest;
    assert |all| == 1 + |rest|;
    var c := Content(s);
    assert c + [b] + rest == c + all;
    assert Content(Absorb(s, [b])) + rest == if s.ftype == HEADERS then c + all else c + rest;
  }

  lemma TakeOne(s: State, b: Byte)
    requires Wf(s) && s.parsed && !s.webTransport && s.read < s.length
    ensures TakePayload(s, b) == Prepend(Delivered(s, [b]), FinishIfFull(Absorb(s, [b])))
    ensures var s1 := Absorb(s, [b]);
            s1.read == s.read + 1 && s1.length == s.length && s1.parsed && !s1.webTransport && Wf(s1)
            && (s1.read < s1.length ==> TakePayload(s, b) == Run(s1, Delivered(s, [b])))
  {
    hide Finish, HeaderRead;
    assert Delivered(s, [b]) + [] == Delivered(s, [b]);
  }

  lemma FeedPayloadStep(s: State, bs: Bytes)
    requires s.parsed && !s.webTransport && bs != [] && s.read < s.length
    ensures Feed(s, bs) == Then(TakePayload(s, bs[0]), bs[1..])
  {
    hide Finish, TakePayload;
    assert Settle(s) == Run(s, []);
  }

  lemma ThenNothing(o: Outcome)
    ensures Then(o, []) == o
  {
  }

  /** After a WebTransport stream header everything passes through. */
  lemma {:induction false} FeedWebTransport(s: State, bs: Bytes)
    requires s.parsed && s.webTransport
    ensures Feed(s, bs) == Run(s, bs)
  {
    if bs != [] {
      FeedWebTransport(s, bs[1..]);
      assert [bs[0]] + bs[1..] == bs;
    }
  }

  function PayloadRoom(s: State, n: nat): nat
    requires s.read <= s.length
  {
    if s.read + n > s.length then s.length - s.read else n
  }

  /** What one call on the payload branch does with the octets that are left. */
  lemma PayloadCall(s: State, rest: Bytes)
    requires Wf(s) && s.parsed && !s.webTransport && rest != []
    ensures var n := PayloadRoom(s, |rest|);
            var o := FinishIfFull(Absorb(s, rest[..n]));
            Feed(s, rest) == Prepend(Delivered(s, rest[..n]), Then(o, rest[n..]))
  {
    hide Finish, HeaderRead, Feed;
    var n := PayloadRoom(s, |rest|);
    var o := FinishIfFull(Absorb(s, rest[..n]));
    if n == 0 {
      assert rest[..n] == [] && rest[n..] == rest;
      FinishOfNothing(s);
      if o.Run? { SettledFeed(s, rest); }
      else { SettleStops(s, rest); }
      PrependNothing(Then(o, rest));
    } else {
      FeedPayload(s, rest[..n]);
      assert rest[..n] + rest[n..] == rest;
      FeedAppend(s, rest[..n], rest[n..]);
      if o.Run? { PrependPrepend(Delivered(s, rest[..n]), o.data, Feed(o.state, rest[n..])); }
    }
  }

  lemma FinishOfNothing(s: State)
    requires s.parsed && !s.webTransport && s.read == s.length
    ensures FinishIfFull(Absorb(s, [])) == Settle(s)
    ensures Settle(s).data == []
  {
    assert Content(s) + [] == Content(s);
  }

  lemma SettleStops(s: State, bs: Bytes)
    requires bs != [] && Settle(s).Stop?
    ensures Feed(s, bs) == Settle(s)
  {
  }

  lemma FinishKeepsWf(s: State)
    requires s.parsed && !s.webTransport && (s.frame.Some? ==> s.ftype == HEADERS)
    ensures Finish(s).Run? ==>
              Wf(Finish(s).state) && !Finish(s).state.parsed && Finish(s).data == []
  {
  }

  // --------------------------------------------------- a header in progress

  /** The outcome of the octets still to come for a header in progress. */
  ghost function Resume(s: State, rest: Bytes): Outcome
    requires !s.parsed
  {
    var s1 := Refresh(s);
    if HeaderRead(s.hdr) then Then(Classify(s1), rest) else Feed(s1, rest)
  }

  lemma ResumeStart(s: State, rest: Bytes)
    requires !s.parsed && !HeaderRead(s.hdr) && rest != []
    ensures Resume(s, rest) == Feed(s, rest)
  {
  }

  lemma ResumeStep(s: State, rest: Bytes)
    requires !s.parsed && !HeaderRead(s.hdr) && rest != []
    ensures Resume(s, rest) == Resume(s.(hdr := s.hdr + [rest[0]]), rest[1..])
  {
    var s1 := Refresh(s.(hdr := s.hdr + [rest[0]]));
    hide Feed, Classify;
    if TypeRead(s.hdr) { TypeStays(s.hdr, rest[0]); }
    assert TypeRead(s.hdr) ==> s1 == Refresh(Refresh(s).(hdr := s.hdr + [rest[0]]));
    FeedOne(Refresh(s), rest);
    if !HeaderRead(s1.hdr) { PrependNothing(Feed(s1, rest[1..])); }
  }

  lemma ResumeEnd(s: State, rest: Bytes)
    requires !s.parsed && !HeaderRead(s.hdr) && (TypeRead(s.hdr) ==> s.ftype == TypeOf(s.hdr))
    ensures Resume(s, rest) == Feed(s, rest)
  {
  }

  lemma ResumeAccept(s: State, rest: Bytes)
    requires !s.parsed && HeaderRead(s.hdr) && s.ftype == TypeOf(s.hdr)
    ensures Resume(s, rest) == Then(Classify(s), rest)
  {
  }

  /** Decoding the type again changes nothing. */
  lemma ResumeTyped(s: State, rest: Bytes)
    requires !s.parsed && TypeRead(s.hdr)
    ensures Resume(s, rest) == Resume(s.(ftype := TypeOf(s.hdr)), rest)
  {
  }

  lemma FeedOne(s: State, rest: Bytes)
    requires !s.parsed && rest != []
    ensures Feed(s, rest) == Then(TakeHeader(s, rest[0]), rest[1..])
  {
  }

  lemma TypeStays(hdr: Bytes, b: Byte)
    requires TypeRead(hdr)
    ensures TypeRead(hdr + [b]) && TypeOf(hdr + [b]) == TypeOf(hdr)
  {
    var n := Varint.Length(hdr[0]);
    assert (hdr + [b])[..n] == hdr[..n];
  }
}
