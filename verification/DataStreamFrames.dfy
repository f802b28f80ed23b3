/** What a whole data stream means: a one-shot parser that splits the octets into
    frames, the frame orders it accepts, and the proof that the incremental parser
    computes the same thing. */
module DataStreamFrames {
  import opened Bytes
  import opened DataStream
  import Varint
  import Qpack

  /** A complete frame on the wire; the two varints need not be minimal. */
  datatype Frame = Frame(typeOctets: Bytes, lengthOctets: Bytes, payload: Bytes) {
    predicate Valid() {
      && Varint.IsVarint(typeOctets) && Varint.IsVarint(lengthOctets)
      && Varint.Value(lengthOctets) == |payload|
      && Varint.Value(typeOctets) != WEBTRANSPORT_STREAM
    }

    function Type(): nat
      requires Valid()
    {
      Varint.Value(typeOctets)
    }

    function Header(): Bytes {
      typeOctets + lengthOctets
    }

    function Wire(): Bytes {
      Header() + payload
    }
  }

  predicate AllValid(frames: seq<Frame>) {
    forall f | f in frames :: f.Valid()
  }

  function Wires(frames: seq<Frame>): Bytes {
    if frames == [] then [] else frames[0].Wire() + Wires(frames[1..])
  }

  /** What the frames so far have established. */
  datatype Phase = Phase(headerFound: bool, dataFound: bool, trailerFound: bool, header: Qpack.Parts,
                         trailer: Qpack.Parts)

  const START: Phase := Phase(false, false, false, Qpack.NO_PARTS, Qpack.NO_PARTS)

  datatype Verdict = Accept(phase: Phase, data: Bytes) | Refuse(error: nat, data: Bytes)

  /** May a frame of this type and length come now? Some(e) is the error if not. */
  function Admission(ph: Phase, ftype: nat, length: nat): Option<nat> {
    if ftype == DATA then
      if !ph.headerFound || ph.trailerFound then Some(FRAME_UNEXPECTED) else None
    else if ftype == HEADERS then
      if ph.headerFound && (!ph.dataFound || ph.trailerFound) then Some(FRAME_UNEXPECTED)
      else if length > MAX_HEADERS then Some(INTERNAL_ERROR)
      else None
    else if ftype == WEBTRANSPORT_STREAM then if ph.headerFound then Some(FRAME_UNEXPECTED) else None
    else if ftype == CANCEL_PUSH || ftype == GOAWAY || ftype == MAX_PUSH_ID then Some(GENERAL_PROTOCOL_ERROR)
    else if ftype == SETTINGS then Some(FRAME_UNEXPECTED)
    else None
  }

  function BatchFrame(ph: Phase, f: Frame): Verdict
    requires f.Valid()
  {
    match Admission(ph, f.Type(), |f.payload|)
    case Some(e) => Refuse(e, [])
    case None =>
      if f.Type() == DATA then Accept(ph.(dataFound := true), f.payload)
      else if f.Type() == HEADERS then
        match Qpack.ParseBlock(f.payload)
        case Rejected => Refuse(FRAME_ERROR, [])
        case OffTable => Refuse(UNDEFINED, [])
        case Parsed(parts) =>
          if ph.headerFound then Accept(ph.(trailerFound := true, trailer := parts), [])
          else Accept(ph.(headerFound := true, trailerFound := false, header := parts), [])
      else Accept(ph, [])
  }

  function PrependV(data: Bytes, v: Verdict): Verdict {
    match v
    case Accept(ph, d) => Accept(ph, data + d)
    case Refuse(e, d) => Refuse(e, data + d)
  }

  function Batch(ph: Phase, frames: seq<Frame>): Verdict
    requires AllValid(frames)
    decreases |frames|
  {
    if frames == [] then Accept(ph, [])
    else
      match BatchFrame(ph, frames[0])
      case Refuse(e, d) => Refuse(e, d)
      case Accept(ph1, d) => PrependV(d, Batch(ph1, frames[1..]))
  }

  // ------------------------------------------- one frame through the machine

  /** Between two frames. */
  predicate AtBoundary(s: State) {
    !s.parsed && s.hdr == [] && s.frame.None? && !s.webTransport
  }

  function PhaseOf(s: State): Phase {
    Phase(s.headerFound, s.dataFound, s.trailerFound, s.header, s.trailer)
  }

  function WithPhase(s: State, ph: Phase): State {
    s.(headerFound := ph.headerFound, dataFound := ph.dataFound, trailerFound := ph.trailerFound,
       header := ph.header, trailer := ph.trailer)
  }

  /** Feed, then finish a last frame that has nothing left to read. */
  function FeedSettled(s: State, bs: Bytes): Outcome {
    match Feed(s, bs)
    case Stop(e, d) => Stop(e, d)
    case Run(s1, d) => Prepend(d, Settle(s1))
  }

  lemma SettleTwice(s: State)
    requires Settle(s).Run?
    ensures Settle(s).data == [] && Settle(Settle(s).state) == Run(Settle(s).state, [])
  {
  }

  /** Settling in between changes nothing but the moment. */
  lemma FeedSettledAppend(s: State, a: Bytes, b: Bytes)
    ensures FeedSettled(s, a + b)
         == match FeedSettled(s, a)
            case Stop(e, d) => if Feed(s, a).Stop? || b != [] then Stop(e, d) else FeedSettled(s, a + b)
            case Run(s1, d) => Prepend(d, FeedSettled(s1, b))
  {
    hide Settle, Qpack.ParseBlock;
    FeedAppend(s, a, b);
    var o := Feed(s, a);
    if o.Run? {
      var settled := Settle(o.state);
      if settled.Run? {
        SettleTwice(o.state);
        assert o.data + settled.data == o.data;
        if b == [] {
          FeedNothing(o.state);
          FeedNothing(settled.state);
          assert o.data + [] == o.data;
        } else {
          SettledFeed(o.state, b);
          PrependSettled(o.data, settled.state, b);
        }
      } else if b != [] {
        SettleStops(o.state, b);
        SettleHasNoData(o.state);
      }
    }
  }

  lemma SettleHasNoData(s: State)
    ensures Settle(s).data == []
  {
  }

  lemma FeedNothing(s: State)
    ensures Feed(s, []) == Run(s, [])
  {
  }

  lemma PrependSettled(d: Bytes, s: State, b: Bytes)
    ensures Prepend(d, FeedSettled(s, b))
         == match Prepend(d, Feed(s, b)) case Stop(e, x) => Stop(e, x) case Run(s1, x) => Prepend(x, Settle(s1))
  {
    hide Settle, Feed;
    var o := Feed(s, b);
    if o.Run? { PrependPrepend(d, o.data, Settle(o.state)); }
  }

  /** Header octets only accumulate until the header is complete. */
  lemma {:induction false} ResumeHeader(s: State, bs: Bytes, rest: Bytes)
    requires !s.parsed
    requires forall k | 0 <= k < |bs| :: !HeaderRead(s.hdr + bs[..k])
    ensures Resume(s, bs + rest) == Resume(s.(hdr := s.hdr + bs), rest)
    decreases |bs|
  {
    hide Resume, HeaderRead;
    if bs == [] {
      assert bs + rest == rest && s.hdr + bs == s.hdr;
    } else {
      assert s.hdr + bs[..0] == s.hdr;
      ResumeStep(s, bs + rest);
      assert (bs + rest)[1..] == bs[1..] + rest;
      var s1 := s.(hdr := s.hdr + [bs[0]]);
      forall k | 0 <= k < |bs[1..]|
        ensures !HeaderRead(s1.hdr + bs[1..][..k])
      {
        assert s1.hdr + bs[1..][..k] == s.hdr + bs[..k + 1];
      }
      ResumeHeader(s1, bs[1..], rest);
      assert s1.hdr + bs[1..] == s.hdr + bs;
    }
  }

  lemma HeaderIsRead(t: Bytes, l: Bytes)
    requires Varint.IsVarint(t) && Varint.IsVarint(l)
    ensures HeaderRead(t + l) && TypeOf(t + l) == Varint.Value(t) && LengthOf(t + l) == Varint.Value(l)
    ensures forall k | 0 <= k < |t + l| :: !HeaderRead((t + l)[..k])
  {
    assert (t + l)[..|t|] == t && (t + l)[|t|..|t| + |l|] == l;
  }

  /** A complete header at a boundary is classified. */
  lemma FeedHeader(s: State, t: Bytes, l: Bytes, rest: Bytes)
    requires AtBoundary(s) && Varint.IsVarint(t) && Varint.IsVarint(l)
    ensures HeaderRead(t + l)
    ensures Feed(s, t + l + rest) == Then(Classify(s.(hdr := t + l, ftype := Varint.Value(t))), rest)
  {
    HeaderIsRead(t, l);
    hide HeaderRead, Feed, Classify;
    assert [] + (t + l) == t + l;
    assert forall k | 0 <= k < |t + l| :: [] + (t + l)[..k] == (t + l)[..k];
    assert !HeaderRead((t + l)[..0]) && (t + l)[..0] == [];
    ResumeStart(s, t + l + rest);
    ResumeHeader(s, t + l, rest);
    var s1 := s.(hdr := t + l);
    assert TypeRead(s1.hdr);
    ResumeTyped(s1, rest);
    ResumeAccept(s1.(ftype := TypeOf(s1.hdr)), rest);
  }

  /** Without a WebTransport header, classification is admission. */
  lemma ClassifyIsAdmission(s: State)
    requires HeaderRead(s.hdr) && !s.webTransport && s.ftype != WEBTRANSPORT_STREAM
    ensures Classify(s) == match Admission(PhaseOf(s), s.ftype, LengthOf(s.hdr))
                           case Some(e) => Stop(e, [])
                           case None => Run(s.(length := LengthOf(s.hdr), read := 0, parsed := true), [])
  {
    hide HeaderRead, LengthOf;
  }

  /** The whole payload of an admitted frame. */
  lemma PayloadThrough(s: State, payload: Bytes)
    requires Wf(s) && s.parsed && !s.webTransport && s.read == 0 && s.length == |payload|
    ensures FeedSettled(s, payload) == Prepend(Delivered(s, payload), Finish(Absorb(s, payload)))
  {
    hide Finish, HeaderRead, Feed;
    var o := Finish(Absorb(s, payload));
    if payload == [] {
      FeedNothing(s);
      FinishOfNothing(s);
      PrependNothing(Settle(s));
    } else {
      FeedPayload(s, payload);
      if o.Run? {
        FinishKeepsWf(Absorb(s, payload));
        assert Settle(o.state) == Run(o.state, []);
        var d := Delivered(s, payload);
        assert d + [] + [] == d + [];
      }
    }
  }

  function After(s: State, f: Frame, ph: Phase): State
    requires f.Valid()
  {
    WithPhase(s.(hdr := [], parsed := false, ftype := f.Type(), length := |f.payload|, read := |f.payload|,
                 frame := None), ph)
  }

  function AsOutcome(s: State, f: Frame, v: Verdict): Outcome
    requires f.Valid()
  {
    match v
    case Refuse(e, d) => Stop(e, d)
    case Accept(ph, d) => Run(After(s, f, ph), d)
  }

  lemma FinishIsVerdict(s: State, f: Frame)
    requires AtBoundary(s) && f.Valid() && Admission(PhaseOf(s), f.Type(), |f.payload|).None?
    ensures var s1 := s.(hdr := f.Header(), ftype := f.Type(), length := |f.payload|, read := 0, parsed := true);
            var o := Prepend(Delivered(s1, f.payload), Finish(Absorb(s1, f.payload)));
            o == AsOutcome(s, f, BatchFrame(PhaseOf(s), f))
  {
    hide Qpack.ParseBlock, Frame.Header;
    var s1 := s.(hdr := f.Header(), ftype := f.Type(), length := |f.payload|, read := 0, parsed := true);
    assert [] + f.payload == f.payload && f.payload + [] == f.payload;
    assert Content(Absorb(s1, f.payload)) == if f.Type() == HEADERS then f.payload else [];
  }

  /** One complete frame at a boundary: the machine and the batch parser agree. */
  lemma FrameThrough(s: State, f: Frame)
    requires AtBoundary(s) && f.Valid()
    ensures FeedSettled(s, f.Wire()) == AsOutcome(s, f, BatchFrame(PhaseOf(s), f))
  {
    var c := s.(hdr := f.Header(), ftype := f.Type());
    FeedHeader(s, f.typeOctets, f.lengthOctets, f.payload);
    HeaderIsRead(f.typeOctets, f.lengthOctets);
    ClassifyIsAdmission(c);
    if Admission(PhaseOf(s), f.Type(), |f.payload|).None? {
      var s1 := c.(length := |f.payload|, read := 0, parsed := true);
      assert Wf(s1);
      FinishIsVerdict(s, f);
      hide Feed, Finish, HeaderRead, Classify, BatchFrame, Qpack.ParseBlock, Wf;
      PayloadThrough(s1, f.payload);
      PrependNothing(Feed(s1, f.payload));
    }
  }

  function AfterAll(s: State, frames: seq<Frame>, ph: Phase): State
    requires AllValid(frames)
  {
    if frames == [] then s else After(s, frames[|frames| - 1], ph)
  }

  /** Any list of frames through the machine: same phase, same data, same error. */
  lemma {:induction false} FramesThrough(s: State, frames: seq<Frame>)
    requires AtBoundary(s) && AllValid(frames)
    ensures FeedSettled(s, Wires(frames))
         == match Batch(PhaseOf(s), frames)
            case Refuse(e, d) => Stop(e, d)
            case Accept(ph, d) => Run(AfterAll(s, frames, ph), d)
    decreases |frames|
  {
    hide Feed, Settle, BatchFrame, Qpack.ParseBlock;
    if frames == [] {
      FeedNothing(s);
      assert Settle(s) == Run(s, []) by { SettleAtBoundary(s); }
    } else {
      var f, rest := frames[0], frames[1..];
      FrameThrough(s, f);
      FeedSettledAppend(s, f.Wire(), Wires(rest));
      var v := BatchFrame(PhaseOf(s), f);
      if v.Accept? {
        var s1 := After(s, f, v.phase);
        FramesThrough(s1, rest);
        assert PhaseOf(s1) == v.phase;
        var r := Batch(v.phase, rest);
        if r.Accept? {
          assert AfterAll(s1, rest, r.phase) == AfterAll(s, frames, r.phase);
        }
      } else if Wires(rest) == [] {
        assert f.Wire() + Wires(rest) == f.Wire();
      }
    }
  }

  lemma SettleAtBoundary(s: State)
    requires AtBoundary(s)
    ensures Settle(s) == Run(s, [])
  {
  }

  // ---------------------------------------------------- the one-shot parser

  /** A complete frame at the front of the octets, if there is one. */
  function FirstFrame(bytes: Bytes): Option<Frame> {
    if !HeaderRead(bytes) then None
    else
      var n := Varint.Length(bytes[0]);
      var m := Varint.Length(bytes[n]);
      var t, l := bytes[..n], bytes[n..n + m];
      if Varint.Value(t) == WEBTRANSPORT_STREAM || Varint.Value(l) > |bytes| - n - m then None
      else Some(Frame(t, l, bytes[n + m..n + m + Varint.Value(l)]))
  }

  lemma FirstFrameIsPrefix(bytes: Bytes)
    requires FirstFrame(bytes).Some?
    ensures var f := FirstFrame(bytes).value;
            f.Valid() && 0 < |f.Wire()| <= |bytes| && bytes == f.Wire() + bytes[|f.Wire()|..]
  {
    hide Varint.Value;
    var f := FirstFrame(bytes).value;
    var n := |f.typeOctets|;
    var m := |f.lengthOctets|;
    var k := n + m;
    assert f.Header() == bytes[..k];
    assert f.payload == bytes[k..k + |f.payload|];
    assert bytes[..k] + bytes[k..k + |f.payload|] == bytes[..k + |f.payload|];
  }

  /** All complete frames, and what is behind them. */
  function Split(bytes: Bytes): (seq<Frame>, Bytes)
    decreases |bytes|
  {
    match FirstFrame(bytes)
    case None => ([], bytes)
    case Some(f) =>
      FirstFrameIsPrefix(bytes);
      var (fs, tail) := Split(bytes[|f.Wire()|..]);
      ([f] + fs, tail)
  }

  /** The split loses nothing and stops only where no frame is complete. */
  lemma {:induction false} SplitIsExact(bytes: Bytes)
    ensures var (fs, tail) := Split(bytes);
            AllValid(fs) && bytes == Wires(fs) + tail && FirstFrame(tail).None?
    decreases |bytes|
  {
    hide FirstFrame, Frame.Wire, Frame.Valid;
    if FirstFrame(bytes).Some? {
      FirstFrameIsPrefix(bytes);
      var f := FirstFrame(bytes).value;
      var rest := bytes[|f.Wire()|..];
      SplitIsExact(rest);
      var (fs, tail) := Split(rest);
      assert ([f] + fs)[1..] == fs;
      assert f.Wire() + (Wires(fs) + tail) == (f.Wire() + Wires(fs)) + tail;
    }
  }

  /** What the octets behind the last complete frame amount to: an incomplete header,
      a frame that is refused at its header, part of a payload, or a WebTransport stream. */
  function BatchTail(ph: Phase, tail: Bytes): Verdict {
    if !HeaderRead(tail) then Accept(ph, [])
    else
      var n := Varint.Length(tail[0]) + Varint.Length(tail[Varint.Length(tail[0])]);
      match Admission(ph, TypeOf(tail), LengthOf(tail))
      case Some(e) => Refuse(e, [])
      case None =>
        Accept(ph, if TypeOf(tail) == DATA || TypeOf(tail) == WEBTRANSPORT_STREAM then tail[n..] else [])
  }

  /** The one-shot parser: the data it delivers and the error it ends with, if any. */
  function BatchParse(bytes: Bytes): (Option<nat>, Bytes)
  {
    SplitIsExact(bytes);
    var (fs, tail) := Split(bytes);
    match Batch(START, fs)
    case Refuse(e, d) => (Some(e), d)
    case Accept(ph, d) =>
      match BatchTail(ph, tail)
      case Refuse(e, x) => (Some(e), d + x)
      case Accept(_, x) => (None, d + x)
  }

  function Observed(o: Outcome): (Option<nat>, Bytes) {
    match o
    case Run(_, d) => (None, d)
    case Stop(e, d) => (Some(e), d)
  }

  lemma TailThrough(s: State, tail: Bytes)
    requires AtBoundary(s) && FirstFrame(tail).None?
    ensures Observed(FeedSettled(s, tail))
         == match BatchTail(PhaseOf(s), tail) case Refuse(e, d) => (Some(e), d) case Accept(_, d) => (None, d)
  {
    if HeaderRead(tail) {
      CompleteHeaderTail(s, tail);
    } else {
      IncompleteHeaderTail(s, tail);
    }
  }

  lemma IncompleteHeaderTail(s: State, tail: Bytes)
    requires AtBoundary(s) && !HeaderRead(tail)
    ensures Observed(FeedSettled(s, tail)) == (None, [])
  {
    hide Feed;
    if tail == [] {
      FeedNothing(s);
    } else {
      forall k | 0 <= k < |tail|
        ensures !HeaderRead(s.hdr + tail[..k])
      {
        assert s.hdr + tail[..k] == tail[..k];
        PrefixNotRead(tail, k);
      }
      assert !HeaderRead(s.hdr + tail[..0]) && s.hdr + tail[..0] == [];
      ResumeStart(s, tail);
      ResumeHeader(s, tail, []);
      assert tail + [] == tail && s.hdr + tail == tail;
      var s1 := Refresh(s.(hdr := tail));
      FeedNothing(s1);
    }
  }

  lemma CompleteHeaderTail(s: State, tail: Bytes)
    requires AtBoundary(s) && HeaderRead(tail) && FirstFrame(tail).None?
    ensures Observed(FeedSettled(s, tail))
         == match BatchTail(PhaseOf(s), tail) case Refuse(e, d) => (Some(e), d) case Accept(_, d) => (None, d)
  {
    var t, l, rest := HeaderSplit(tail);
    FeedHeader(s, t, l, rest);
    HeaderIsRead(t, l);
    var c := s.(hdr := t + l, ftype := Varint.Value(t));
    hide Feed, FirstFrame, HeaderRead, TypeOf, LengthOf, Classify, Settle;
    HeaderThenRest(c, rest);
    FeedSettledForm(s, tail, Then(Classify(c), rest));
  }

  lemma FeedSettledForm(s: State, bs: Bytes, o: Outcome)
    requires Feed(s, bs) == o && (o.Run? ==> Settle(o.state) == Run(o.state, []))
    ensures FeedSettled(s, bs) == o
  {
    hide Feed, Settle;
    if o.Run? { assert o.data + [] == o.data; }
  }

  lemma HeaderSplit(tail: Bytes) returns (t: Bytes, l: Bytes, rest: Bytes)
    requires HeaderRead(tail)
    ensures Varint.IsVarint(t) && Varint.IsVarint(l) && tail == t + l + rest
    ensures TypeOf(tail) == Varint.Value(t) && LengthOf(tail) == Varint.Value(l)
    ensures |t| == Varint.Length(tail[0]) && |l| == Varint.Length(tail[|t|]) && rest == tail[|t| + |l|..]
    ensures FirstFrame(tail).None? ==> TypeOf(tail) == WEBTRANSPORT_STREAM || |rest| < LengthOf(tail)
  {
    var n := Varint.Length(tail[0]);
    var m := Varint.Length(tail[n]);
    t, l, rest := tail[..n], tail[n..n + m], tail[n + m..];
    assert t + l == tail[..n + m];
  }

  lemma HeaderThenRest(c: State, rest: Bytes)
    requires HeaderRead(c.hdr) && !c.parsed && c.frame.None? && !c.webTransport
    requires c.ftype == WEBTRANSPORT_STREAM || |rest| < LengthOf(c.hdr)
    ensures var o := Then(Classify(c), rest);
            match Admission(PhaseOf(c), c.ftype, LengthOf(c.hdr))
            case Some(e) => o == Stop(e, [])
            case None =>
              && o.Run? && Settle(o.state) == Run(o.state, [])
              && o.data == if c.ftype == DATA || c.ftype == WEBTRANSPORT_STREAM then rest else []
  {
    hide Feed, HeaderRead, LengthOf;
    if c.ftype == WEBTRANSPORT_STREAM {
      WebTransportTail(c, rest);
    } else {
      ClassifyIsAdmission(c);
      if Admission(PhaseOf(c), c.ftype, LengthOf(c.hdr)).None? {
        var s1 := c.(length := LengthOf(c.hdr), read := 0, parsed := true);
        PartialPayload(s1, rest);
        PrependNothing(Feed(s1, rest));
      }
    }
  }

  lemma WebTransportTail(c: State, rest: Bytes)
    requires HeaderRead(c.hdr) && c.ftype == WEBTRANSPORT_STREAM
    ensures var o := Then(Classify(c), rest);
            if c.headerFound then o == Stop(FRAME_UNEXPECTED, [])
            else o.Run? && o.data == rest && Settle(o.state) == Run(o.state, [])
                 && o.state.webTransport && o.state.controlStreamId == LengthOf(c.hdr)
  {
    hide HeaderRead, LengthOf, Feed;
    if !c.headerFound {
      FeedWebTransport(Classify(c).state, rest);
      assert [] + rest == rest;
    }
  }

  lemma PartialPayload(s: State, rest: Bytes)
    requires Wf(s) && s.parsed && !s.webTransport && s.read == 0 && |rest| < s.length
    ensures Feed(s, rest).Run? && Feed(s, rest).data == Delivered(s, rest)
    ensures Settle(Feed(s, rest).state) == Run(Feed(s, rest).state, [])
  {
    hide Feed, HeaderRead, Finish;
    if rest == [] {
      FeedNothing(s);
    } else {
      FeedPayload(s, rest);
      assert Delivered(s, rest) + [] == Delivered(s, rest);
    }
  }

  /** The incremental machine computes the one-shot parser on every octet string:
      the same data and the same error code. (Feed itself may still owe the end of a
      last frame with nothing left to read; that is what FeedSettled adds.) */
  lemma MachineRefinesBatch(bytes: Bytes)
    ensures Observed(FeedSettled(INITIAL, bytes)) == BatchParse(bytes)
  {
    hide Feed, Settle, BatchTail, Batch, Split, FirstFrame;
    SplitIsExact(bytes);
    var (fs, tail) := Split(bytes);
    FramesThrough(INITIAL, fs);
    FeedSettledAppend(INITIAL, Wires(fs), tail);
    var v := Batch(START, fs);
    assert PhaseOf(INITIAL) == START;
    if v.Accept? {
      var s := AfterAll(INITIAL, fs, v.phase);
      BatchKeepsPhase(fs, v.phase);
      TailThrough(s, tail);
    } else if tail == [] {
      assert Wires(fs) + tail == Wires(fs);
    }
  }

  lemma BatchKeepsPhase(fs: seq<Frame>, ph: Phase)
    requires AllValid(fs) && Batch(START, fs).Accept? && Batch(START, fs).phase == ph
    ensures PhaseOf(AfterAll(INITIAL, fs, ph)) == ph && AtBoundary(AfterAll(INITIAL, fs, ph))
  {
  }

  lemma PrefixNotRead(hdr: Bytes, k: nat)
    requires !HeaderRead(hdr) && k <= |hdr|
    ensures !HeaderRead(hdr[..k])
  {
  }

  // ---------------------------------------------- which messages are accepted

  /** Frame types that end a data stream with an error wherever they come. */
  predicate Forbidden(ftype: nat) {
    ftype == 0x3 || ftype == 0x4 || ftype == 0x7 || ftype == 0xD
  }

  /** The HEADERS and DATA frames in order, without the unknown frames between them. */
  function Message(frames: seq<Frame>): seq<Frame>
    requires AllValid(frames)
    decreases |frames|
  {
    if frames == [] then []
    else
      var last := frames[|frames| - 1];
      var front := Message(frames[..|frames| - 1]);
      if last.Type() == 0x1 || last.Type() == 0x0 then front + [last] else front
  }

  function DataOf(frames: seq<Frame>): Bytes
    requires AllValid(frames)
    decreases |frames|
  {
    if frames == [] then []
    else
      var last := frames[|frames| - 1];
      DataOf(frames[..|frames| - 1]) + if last.Type() == 0x0 then last.payload else []
  }

  predicate GoodHeaders(f: Frame) {
    |f.payload| <= 0x1_0000 && Qpack.ParseBlock(f.payload).Parsed?
  }

  /** Section 4.1 of RFC 9114 as this parser reads it: HEADERS, then DATA frames,
      then at most one trailer HEADERS, which needs at least one DATA before it. */
  predicate InOrder(m: seq<Frame>)
    requires AllValid(m)
  {
    forall i | 0 <= i < |m| ::
      if i == 0 then m[i].Type() == 0x1
      else m[i].Type() == 0x0 || (m[i].Type() == 0x1 && i >= 2 && i == |m| - 1)
  }

  predicate Legal(frames: seq<Frame>)
    requires AllValid(frames)
  {
    && (forall f | f in frames :: !Forbidden(f.Type()))
    && (forall f | f in frames :: f.Type() == 0x1 ==> GoodHeaders(f))
    && MessageIsValid(frames) && InOrder(Message(frames))
  }

  /** A subset of valid frames is valid. */
  predicate MessageIsValid(frames: seq<Frame>)
    requires AllValid(frames)
  {
    AllValid(Message(frames))
  }

  lemma {:induction false} MessageValid(frames: seq<Frame>)
    requires AllValid(frames)
    ensures AllValid(Message(frames))
    decreases |frames|
  {
    if frames != [] { MessageValid(frames[..|frames| - 1]); }
  }

  lemma {:induction false} BatchAppend(ph: Phase, a: seq<Frame>, f: Frame)
    requires AllValid(a) && f.Valid()
    ensures AllValid(a + [f])
    ensures Batch(ph, a + [f])
         == match Batch(ph, a)
            case Refuse(e, d) => Refuse(e, d)
            case Accept(ph1, d) => PrependV(d, BatchFrame(ph1, f))
    decreases |a|
  {
    hide BatchFrame, Frame.Valid;
    if a == [] {
      assert a + [f] == [f] && [f][1..] == [];
      var v := BatchFrame(ph, f);
      if v.Accept? { assert v.data + [] == v.data && [] + v.data == v.data; }
      else { assert [] + v.data == v.data; }
    } else {
      assert (a + [f])[0] == a[0] && (a + [f])[1..] == a[1..] + [f];
      var v := BatchFrame(ph, a[0]);
      if v.Accept? {
        BatchAppend(v.phase, a[1..], f);
        var w := Batch(v.phase, a[1..]);
        if w.Accept? {
          var x := BatchFrame(w.phase, f);
          assert v.data + (w.data + x.data) == v.data + w.data + x.data;
        }
      }
    }
  }

  /** What the phase says about the message so far. */
  predicate Tracks(ph: Phase, m: seq<Frame>)
    requires AllValid(m)
  {
    && ph.headerFound == (|m| >= 1)
    && ph.dataFound == (|m| >= 2)
    && ph.trailerFound == (|m| >= 3 && m[|m| - 1].Type() == HEADERS)
    && (|m| >= 1 ==> Qpack.ParseBlock(m[0].payload) == Qpack.Parsed(ph.header))
    && (ph.trailerFound ==> Qpack.ParseBlock(m[|m| - 1].payload) == Qpack.Parsed(ph.trailer))
  }

  lemma InOrderGrows(m: seq<Frame>, f: Frame, ph: Phase)
    requires AllValid(m) && f.Valid() && InOrder(m) && Tracks(ph, m)
    requires f.Type() == HEADERS || f.Type() == DATA
    ensures AllValid(m + [f])
    ensures InOrder(m + [f])
        <==> if f.Type() == DATA then ph.headerFound && !ph.trailerFound
             else !ph.headerFound || (ph.dataFound && !ph.trailerFound)
  {
    hide Frame.Type, Frame.Valid, Qpack.ParseBlock;
    var n := m + [f];
    assert n[|m|] == f;
    assert forall i | 0 <= i < |m| :: n[i] == m[i];
    if |m| >= 1 { assert n[|m| - 1] == m[|m| - 1]; }
  }

  lemma InOrderPrefix(m: seq<Frame>, f: Frame)
    requires AllValid(m) && f.Valid() && AllValid(m + [f]) && InOrder(m + [f])
    ensures InOrder(m)
  {
    assert forall i | 0 <= i < |m| :: (m + [f])[i] == m[i];
  }

  /** The frame orders accepted, exactly, and what an accepted list delivers: the
      DATA payloads in order, the first HEADERS as header, the last as trailer. */
  lemma {:induction false} AcceptedIffLegal(frames: seq<Frame>)
    requires AllValid(frames)
    ensures Batch(START, frames).Accept? <==> Legal(frames)
    ensures Legal(frames) ==>
              var v := Batch(START, frames);
              v.data == DataOf(frames) && Tracks(v.phase, Message(frames))
    decreases |frames|
  {
    hide Batch, Legal, DataOf, Message, Tracks, Frame.Valid;
    MessageValid(frames);
    if frames == [] {
      EmptyIsLegal();
    } else {
      var front, f := frames[..|frames| - 1], frames[|frames| - 1];
      assert frames == front + [f];
      AcceptedIffLegal(front);
      BatchAppend(START, front, f);
      MessageValid(front);
      LegalStep(front, f);
    }
  }

  lemma Snoc(front: seq<Frame>, f: Frame)
    requires AllValid(front) && f.Valid() && AllValid(front + [f])
    ensures DataOf(front + [f]) == DataOf(front) + if f.Type() == DATA then f.payload else []
    ensures Message(front + [f]) == Message(front) + if f.Type() == HEADERS || f.Type() == DATA then [f] else []
  {
    hide Frame.Type, Frame.Valid;
    var all := front + [f];
    assert all[..|all| - 1] == front && all[|all| - 1] == f;
    assert Message(front) + [] == Message(front);
  }

  predicate GoodFrame(f: Frame)
    requires f.Valid()
  {
    !Forbidden(f.Type()) && (f.Type() == HEADERS ==> GoodHeaders(f))
  }

  lemma LegalForm(frames: seq<Frame>)
    requires AllValid(frames)
    ensures AllValid(Message(frames))
    ensures Legal(frames) <==> (forall f | f in frames :: GoodFrame(f)) && InOrder(Message(frames))
  {
    hide GoodHeaders, InOrder, Message, Forbidden, Frame.Type;
    MessageValid(frames);
  }

  lemma AllGoodSnoc(front: seq<Frame>, f: Frame)
    requires AllValid(front) && f.Valid() && AllValid(front + [f])
    ensures (forall g | g in front + [f] :: GoodFrame(g)) <==> (forall g | g in front :: GoodFrame(g)) && GoodFrame(f)
  {
    hide GoodFrame;
    var all := front + [f];
    assert forall g | g in all :: g in front || g == f;
    assert forall g | g in front :: g in all;
    assert f in all;
  }

  /** One more frame is legal if the ones before are and the admission check lets it pass. */
  lemma LegalSnoc(front: seq<Frame>, f: Frame, ph: Phase)
    requires AllValid(front) && f.Valid() && AllValid(front + [f])
    requires Legal(front) ==> Tracks(ph, Message(front))
    ensures Legal(front + [f]) <==>
              Legal(front) && Admission(ph, f.Type(), |f.payload|).None? && (f.Type() == HEADERS ==> GoodHeaders(f))
  {
    LegalForm(front);
    LegalForm(front + [f]);
    AllGoodSnoc(front, f);
    Snoc(front, f);
    hide Frame.Type, Frame.Valid, Legal, Message, InOrder, Tracks, Qpack.ParseBlock;
    var m := Message(front);
    assert m + [] == m;
    if f.Type() == HEADERS || f.Type() == DATA {
      if InOrder(m + [f]) { InOrderPrefix(m, f); }
      if InOrder(m) && Legal(front) { InOrderGrows(m, f, ph); }
    }
    AdmissionForm(ph, f.Type(), |f.payload|, f);
  }

  lemma AdmissionForm(ph: Phase, ftype: nat, length: nat, f: Frame)
    requires f.Valid() && f.Type() == ftype && length == |f.payload|
    ensures Admission(ph, ftype, length).None? && (ftype == HEADERS ==> GoodHeaders(f))
       <==> GoodFrame(f)
            && (ftype == DATA ==> ph.headerFound && !ph.trailerFound)
            && (ftype == HEADERS ==> !ph.headerFound || (ph.dataFound && !ph.trailerFound))
  {
    hide Qpack.ParseBlock;
  }

  lemma TracksSnoc(m: seq<Frame>, f: Frame, ph: Phase)
    requires AllValid(m) && f.Valid() && Tracks(ph, m) && InOrder(m)
    requires Admission(ph, f.Type(), |f.payload|).None? && (f.Type() == HEADERS ==> GoodHeaders(f))
    ensures BatchFrame(ph, f).Accept?
    ensures BatchFrame(ph, f).data == if f.Type() == DATA then f.payload else []
    ensures var n := m + if f.Type() == HEADERS || f.Type() == DATA then [f] else [];
            AllValid(n) && Tracks(BatchFrame(ph, f).phase, n)
  {
    hide Frame.Type, Frame.Valid, Qpack.ParseBlock;
    assert m + [] == m;
    var n := m + [f];
    assert n[|m|] == f;
    if |m| >= 1 { assert n[0] == m[0]; }
  }

  lemma EmptyIsLegal()
    ensures Legal([]) && Batch(START, []) == Accept(START, DataOf([])) && Tracks(START, Message([]))
  {
  }

  lemma LegalStep(front: seq<Frame>, f: Frame)
    requires AllValid(front) && f.Valid() && AllValid(front + [f])
    requires Batch(START, front).Accept? <==> Legal(front)
    requires Legal(front) ==>
               Batch(START, front).data == DataOf(front) && Tracks(Batch(START, front).phase, Message(front))
    requires Batch(START, front + [f])
          == match Batch(START, front)
             case Refuse(e, d) => Refuse(e, d)
             case Accept(ph1, d) => PrependV(d, BatchFrame(ph1, f))
    ensures Batch(START, front + [f]).Accept? <==> Legal(front + [f])
    ensures Legal(front + [f]) ==>
              var v := Batch(START, front + [f]);
              v.data == DataOf(front + [f]) && Tracks(v.phase, Message(front + [f]))
  {
    var before := Batch(START, front);
    var ph := if before.Accept? then before.phase else START;
    LegalSnoc(front, f, ph);
    Snoc(front, f);
    AcceptedFrames(ph, f);
    LegalForm(front);
    hide Legal, Message, DataOf, Tracks, InOrder, Admission, BatchFrame, GoodHeaders, Frame.Type, Frame.Valid;
    if Legal(front + [f]) {
      TracksSnoc(Message(front), f, ph);
    }
  }

  lemma AcceptedFrames(ph: Phase, f: Frame)
    requires f.Valid()
    ensures BatchFrame(ph, f).Accept?
       <==> Admission(ph, f.Type(), |f.payload|).None? && (f.Type() == HEADERS ==> GoodHeaders(f))
  {
    hide Qpack.ParseBlock, Frame.Type, Frame.Valid;
  }
}
