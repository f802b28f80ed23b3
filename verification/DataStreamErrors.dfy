/** Which error ends a data stream, and when; how a WebTransport stream starts. */
module DataStreamErrors {
  import opened Bytes
  import opened DataStream
  import opened DataStreamFrames
  import Varint
  import Qpack

  /** The error for a frame of this type and length behind these HEADERS and DATA frames, as soon as
      its header is complete: control frames never belong here, DATA needs a header before it, a
      second HEADERS is a trailer and needs DATA before it, and nothing but unknown frames follows a
      trailer. */
  function Refusal(m: seq<Frame>, t: nat, length: nat): Option<nat>
    requires AllValid(m)
  {
    var header := |m| >= 1;
    var trailer := |m| >= 3 && m[|m| - 1].Type() == 0x1;
    if t == 0x3 || t == 0x7 || t == 0xD then Some(0x0101)
    else if t == 0x4 then Some(0x0105)
    else if t == 0x0 && (!header || trailer) then Some(0x0105)
    else if t == 0x1 && header && (|m| == 1 || trailer) then Some(0x0105)
    else if t == 0x1 && length > 0x1_0000 then Some(0x0102)
    else if t == 0x41 && header then Some(0x0105)
    else None
  }

  lemma AdmissionIsRefusal(ph: Phase, m: seq<Frame>, t: nat, length: nat)
    requires AllValid(m) && Tracks(ph, m)
    ensures Admission(ph, t, length) == Refusal(m, t, length)
  {
    hide Qpack.ParseBlock, Frame.Type, Frame.Valid;
  }

  /** The machine after legal frames. */
  lemma AfterLegal(frames: seq<Frame>) returns (s: State)
    requires AllValid(frames) && Legal(frames)
    ensures FeedSettled(INITIAL, Wires(frames)) == Run(s, DataOf(frames))
    ensures AtBoundary(s) && AllValid(Message(frames)) && Tracks(PhaseOf(s), Message(frames))
  {
    hide FeedSettled, Tracks, Legal;
    AcceptedIffLegal(frames);
    MessageValid(frames);
    FramesThrough(INITIAL, frames);
    assert PhaseOf(INITIAL) == START;
    var v := Batch(START, frames);
    BatchKeepsPhase(frames, v.phase);
    s := AfterAll(INITIAL, frames, v.phase);
  }

  /** A frame that may not come ends the stream with its error at the last octet of its header,
      whatever follows, after the data of the frames before it. */
  lemma RefusedAtHeader(frames: seq<Frame>, t: Bytes, l: Bytes, rest: Bytes)
    requires AllValid(frames) && Legal(frames) && Varint.IsVarint(t) && Varint.IsVarint(l)
    requires AllValid(Message(frames)) && Refusal(Message(frames), Varint.Value(t), Varint.Value(l)).Some?
    ensures FeedSettled(INITIAL, Wires(frames) + (t + l + rest))
         == Stop(Refusal(Message(frames), Varint.Value(t), Varint.Value(l)).value, DataOf(frames))
  {
    var s := AfterLegal(frames);
    AdmissionIsRefusal(PhaseOf(s), Message(frames), Varint.Value(t), Varint.Value(l));
    hide Refusal, Legal, Tracks, DataOf, Message, Varint.Value, Varint.IsVarint, Wires, FeedSettled;
    StopsAtHeader(s, t, l, rest);
    FeedSettledAppend(INITIAL, Wires(frames), t + l + rest);
    assert DataOf(frames) + [] == DataOf(frames);
  }

  lemma StopsAtHeader(s: State, t: Bytes, l: Bytes, rest: Bytes)
    requires AtBoundary(s) && Varint.IsVarint(t) && Varint.IsVarint(l)
    requires Admission(PhaseOf(s), Varint.Value(t), Varint.Value(l)).Some?
    ensures FeedSettled(s, t + l + rest)
         == Stop(Admission(PhaseOf(s), Varint.Value(t), Varint.Value(l)).value, [])
  {
    FeedHeader(s, t, l, rest);
    HeaderIsRead(t, l);
    var c := s.(hdr := t + l, ftype := Varint.Value(t));
    hide Feed, HeaderRead, LengthOf, TypeOf;
    if c.ftype != WEBTRANSPORT_STREAM { ClassifyIsAdmission(c); }
  }

  /** A HEADERS frame that may come is refused behind its last octet if its block is not one. */
  lemma RefusedBlock(frames: seq<Frame>, f: Frame, rest: Bytes)
    requires AllValid(frames) && Legal(frames) && f.Valid() && f.Type() == 0x1
    requires AllValid(Message(frames)) && Refusal(Message(frames), 0x1, |f.payload|).None?
    requires !Qpack.ParseBlock(f.payload).Parsed?
    ensures FeedSettled(INITIAL, Wires(frames) + (f.Wire() + rest))
         == Stop(if Qpack.ParseBlock(f.payload).Rejected? then 0x0106 else 0, DataOf(frames))
  {
    var s := AfterLegal(frames);
    AdmissionIsRefusal(PhaseOf(s), Message(frames), 0x1, |f.payload|);
    hide Refusal, Legal, Tracks, DataOf, Message, Varint.Value, Wires, FeedSettled, Qpack.ParseBlock;
    FrameThrough(s, f);
    StoppedFor(s, f.Wire(), rest);
    FeedSettledAppend(INITIAL, Wires(frames), f.Wire() + rest);
    assert DataOf(frames) + [] == DataOf(frames);
  }

  lemma StoppedFor(s: State, a: Bytes, b: Bytes)
    requires FeedSettled(s, a).Stop?
    ensures FeedSettled(s, a + b) == FeedSettled(s, a)
  {
    FeedSettledAppend(s, a, b);
    if b == [] { assert a + b == a; }
  }

  /** The start of a WebTransport stream, in any chunks: the session is the value behind 0x41, and all
      octets that follow are data. */
  lemma WebTransportStart(t: Bytes, session: Bytes, data: Bytes, chunks: seq<Bytes>)
    requires Varint.IsVarint(t) && Varint.Value(t) == 0x41 && Varint.IsVarint(session)
    requires Join(chunks) == t + session + data
    ensures FeedAll(INITIAL, chunks)
         == Run(INITIAL.(hdr := t + session, ftype := 0x41, parsed := true, headerFound := true,
                         webTransport := true, controlStreamId := Varint.Value(session)), data)
  {
    hide Feed;
    ChunkingNeverMatters(INITIAL, chunks);
    FeedHeader(INITIAL, t, session, data);
    HeaderIsRead(t, session);
    hide HeaderRead, LengthOf, TypeOf;
    var c := INITIAL.(hdr := t + session, ftype := 0x41);
    FeedWebTransport(Classify(c).state, data);
    assert [] + data == data;
  }
}
