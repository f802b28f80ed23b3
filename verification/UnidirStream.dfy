/** Unidirectional streams of the peer (sections 6.2 and 7.2.4 of RFC 9114): the
    stream type, the control stream with its SETTINGS frame, the WebTransport
    header. One octet at a time, then what whole frames mean. */
module UnidirStream {
  import opened Bytes
  import Varint
  import Settings

  const UINT64_MAX: nat := 0xFFFF_FFFF_FFFF_FFFF

  const TYPE_CONTROL: nat := 0x0
  const TYPE_WEBTRANSPORT: nat := 0x54

  const FRAME_DATA: nat := 0x0
  const FRAME_HEADERS: nat := 0x1
  const FRAME_SETTINGS: nat := 0x4
  const FRAME_PUSH_PROMISE: nat := 0x5
  const FRAME_WEBTRANSPORT: nat := 0x41

  const NO_CODE: nat := 0
  const INTERNAL_ERROR: nat := 0x0102
  const FRAME_UNEXPECTED: nat := 0x0105
  const SETTINGS_ERROR: nat := 0x0109
  const MISSING_SETTINGS: nat := 0x010A

  const MAX_LOAD: nat := 0x1_0000

  /** The live part of the stream state and the settings of the connection.
      UINT64_MAX stands for a varint that is not known yet, as in the C code. */
  datatype State = State(
    streamType: nat, varint: Bytes, ftype: nat, length: nat, read: nat, frame: Option<Bytes>,
    ignored: bool, sessionId: nat, settings: Settings.Settings)

  function Initial(settings: Settings.Settings): State {
    State(UINT64_MAX, [], 0, 0, 0, None, false, UINT64_MAX, settings)
  }

  /** Running with some octets handed to the application, or refused. */
  datatype Outcome = Run(state: State, data: Bytes) | Fail(error: nat, settings: Settings.Settings, data: Bytes)

  // -------------------------------------------------------- the control stream

  function Reset(s: State): State {
    s.(ftype := UINT64_MAX, length := UINT64_MAX, read := 0, frame := None)
  }

  predicate Unacceptable(ftype: nat) {
    ftype == FRAME_DATA || ftype == FRAME_HEADERS || ftype == FRAME_PUSH_PROMISE || ftype == FRAME_WEBTRANSPORT
  }

  /** SETTINGS first, SETTINGS once, and no frame of another stream kind. */
  function CheckType(s: State, ftype: nat): Outcome {
    if s.settings.received && ftype == FRAME_SETTINGS then Fail(FRAME_UNEXPECTED, s.settings, [])
    else if !s.settings.received && ftype != FRAME_SETTINGS then Fail(MISSING_SETTINGS, s.settings, [])
    else if Unacceptable(ftype) then Fail(INTERNAL_ERROR, s.settings, [])
    else Run(s.(ftype := ftype, ignored := s.ignored || ftype != FRAME_SETTINGS), [])
  }

  /** A complete frame: only SETTINGS means anything; an empty one has no buffer to decode. */
  function Finish(s: State): Outcome {
    if s.ftype != FRAME_SETTINGS then Run(Reset(s), [])
    else if s.frame.None? then Fail(SETTINGS_ERROR, s.settings, [])
    else
      var d := Settings.DecodeComponents(s.frame.value, s.settings);
      if d.ok then Run(Reset(s.(settings := d.settings.(received := true))), [])
      else Fail(SETTINGS_ERROR, d.settings, [])
  }

  /** The length is known: refuse a long frame that would have to be loaded. */
  function StartFrame(s: State): Outcome {
    if s.length == 0 then Finish(s)
    else if s.ignored then Run(s, [])
    else if s.length > MAX_LOAD then Fail(INTERNAL_ERROR, s.settings, [])
    else Run(s.(frame := Some([])), [])
  }

  function Absorb(s: State, bs: Bytes): State {
    var s1 := s.(read := s.read + |bs|);
    if s.ignored || s.frame.None? then s1 else s1.(frame := Some(s.frame.value + bs))
  }

  // ---------------------------------------------------------- all stream types

  /** The next octets belong to a varint: the stream type, the type or length of a
      control frame, or the session of a WebTransport stream. */
  predicate ReadsVarint(s: State) {
    || s.streamType == UINT64_MAX
    || (s.streamType == TYPE_CONTROL && (s.ftype == UINT64_MAX || s.length == UINT64_MAX))
    || (s.streamType == TYPE_WEBTRANSPORT && s.sessionId == UINT64_MAX)
  }

  function OnVarint(s: State, sessions: set<nat>, v: nat): Outcome {
    if s.streamType == UINT64_MAX then
      var s1 := s.(streamType := v);
      Run(if v == TYPE_CONTROL then Reset(s1) else s1, [])
    else if s.streamType == TYPE_CONTROL then
      if s.ftype == UINT64_MAX then CheckType(s, v) else StartFrame(s.(length := v))
    else if v in sessions then Run(s.(sessionId := v), [])
    else Fail(NO_CODE, s.settings, [])
  }

  /** Octets of push, QPACK and unknown streams are dropped. After a WebTransport
      header the octets go to the session, which must have been declared. */
  function Take(s: State, sessions: set<nat>, b: Byte): Outcome {
    if ReadsVarint(s) then
      var v := s.varint + [b];
      if Varint.IsVarint(v) then OnVarint(s.(varint := []), sessions, Varint.Value(v)) else Run(s.(varint := v), [])
    else if s.streamType == TYPE_CONTROL then
      var s1 := Absorb(s, [b]);
      if s1.read >= s1.length then Finish(s1) else Run(s1, [])
    else Run(s, if s.streamType == TYPE_WEBTRANSPORT then [b] else [])
  }

  function Prepend(data: Bytes, o: Outcome): Outcome {
    match o
    case Run(s, d) => Run(s, data + d)
    case Fail(e, st, d) => Fail(e, st, data + d)
  }

  function Then(o: Outcome, sessions: set<nat>, bs: Bytes): Outcome
    decreases |bs|, 1
  {
    match o
    case Fail(_, _, _) => o
    case Run(s, d) => Prepend(d, Feed(s, sessions, bs))
  }

  function Feed(s: State, sessions: set<nat>, bs: Bytes): Outcome
    decreases |bs|, 0
  {
    if bs == [] then Run(s, []) else Then(Take(s, sessions, bs[0]), sessions, bs[1..])
  }

  lemma PrependPrepend(a: Bytes, b: Bytes, o: Outcome)
    ensures Prepend(a, Prepend(b, o)) == Prepend(a + b, o)
  {
    assert a + (b + o.data) == a + b + o.data;
  }

  lemma PrependNothing(o: Outcome)
    ensures Prepend([], o) == o
  {
  }

  /** Feeding a then b is feeding a ++ b: state, settings, data and error. */
  lemma {:induction false} FeedAppend(s: State, sessions: set<nat>, a: Bytes, b: Bytes)
    ensures Feed(s, sessions, a + b) == Then(Feed(s, sessions, a), sessions, b)
    decreases |a|
  {
    if a == [] {
      assert a + b == b;
      PrependNothing(Feed(s, sessions, b));
    } else {
      hide Take;
      assert (a + b)[0] == a[0] && (a + b)[1..] == a[1..] + b;
      var o := Take(s, sessions, a[0]);
      if o.Run? {
        FeedAppend(o.state, sessions, a[1..], b);
        var rest := Feed(o.state, sessions, a[1..]);
        if rest.Run? { PrependPrepend(o.data, rest.data, Feed(rest.state, sessions, b)); }
      }
    }
  }

  function FeedAll(s: State, sessions: set<nat>, chunks: seq<Bytes>): Outcome
    decreases |chunks|
  {
    if chunks == [] then Run(s, [])
    else
      match Feed(s, sessions, chunks[0])
      case Fail(e, st, d) => Fail(e, st, d)
      case Run(s1, d) => Prepend(d, FeedAll(s1, sessions, chunks[1..]))
  }

  /** The settings and the error do not depend on how the stream was cut. */
  lemma {:induction false} ChunkingNeverMatters(s: State, sessions: set<nat>, chunks: seq<Bytes>)
    ensures FeedAll(s, sessions, chunks) == Feed(s, sessions, Join(chunks))
    decreases |chunks|
  {
    if chunks != [] {
      hide Take, Feed;
      FeedNone(s, sessions);
      FeedAppend(s, sessions, chunks[0], Join(chunks[1..]));
      var o := Feed(s, sessions, chunks[0]);
      if o.Run? { ChunkingNeverMatters(o.state, sessions, chunks[1..]); }
    }
  }

  lemma FeedNone(s: State, sessions: set<nat>)
    ensures Feed(s, sessions, []) == Run(s, [])
  {
  }

  // ------------------------------------------------------ invariant of a run

  /** The ignore flag is set once and never cleared; it only ever says that the
      SETTINGS frame is already behind, so a SETTINGS frame is never skipped. */
  predicate Inv(s: State) {
    && (s.ignored ==> s.settings.received)
    && (!ReadsVarint(s) ==> s.varint == [])
    && (s.varint == [] || |s.varint| < Varint.Length(s.varint[0]))
    && (s.streamType == TYPE_CONTROL ==>
          && (s.ftype == UINT64_MAX || s.ftype < Varint.LIMIT) && (s.length == UINT64_MAX || s.length < Varint.LIMIT)
          && (s.ftype == UINT64_MAX ==> s.length == UINT64_MAX)
          && (s.length == UINT64_MAX ==> s.read == 0 && s.frame.None?)
          && (s.ftype == FRAME_SETTINGS ==> !s.settings.received)
          && (s.ftype != FRAME_SETTINGS && s.ftype != UINT64_MAX ==> s.ignored)
          && (s.ftype != UINT64_MAX && s.length != UINT64_MAX ==>
                s.read < s.length
                && (s.ignored ==> s.frame.None?)
                && (!s.ignored ==> s.frame.Some? && |s.frame.value| == s.read && s.length <= MAX_LOAD)))
    && (s.streamType != TYPE_CONTROL ==> s.frame.None? && !s.ignored)
  }

  lemma InvInitial(settings: Settings.Settings)
    ensures Inv(Initial(settings))
  {
  }

  lemma TakeKeepsInv(s: State, sessions: set<nat>, b: Byte)
    requires Inv(s)
    ensures Take(s, sessions, b).Run? ==> Inv(Take(s, sessions, b).state)
  {
    hide Settings.DecodeComponents;
    var v := s.varint + [b];
    if Varint.IsVarint(v) { Varint.ValueBound(v); }
    hide Varint.Value;
  }

  lemma {:induction false} FeedKeepsInv(s: State, sessions: set<nat>, bs: Bytes)
    requires Inv(s)
    ensures Feed(s, sessions, bs).Run? ==> Inv(Feed(s, sessions, bs).state)
    ensures Feed(s, sessions, bs).Run? && s.settings.received ==> Feed(s, sessions, bs).state.settings.received
    decreases |bs|
  {
    if bs != [] {
      TakeKeepsInv(s, sessions, bs[0]);
      var o := Take(s, sessions, bs[0]);
      if o.Run? { FeedKeepsInv(o.state, sessions, bs[1..]); }
    }
  }

  /** Every run from the start of a stream, in any chunks, keeps the invariant. */
  lemma EveryRunKeepsInv(settings: Settings.Settings, sessions: set<nat>, chunks: seq<Bytes>)
    ensures var o := FeedAll(Initial(settings), sessions, chunks);
            o.Run? ==> Inv(o.state) && (settings.received ==> o.state.settings.received)
  {
    hide Feed, FeedAll, Inv;
    InvInitial(settings);
    ChunkingNeverMatters(Initial(settings), sessions, chunks);
    FeedKeepsInv(Initial(settings), sessions, Join(chunks));
  }

  // --------------------------------------------- what whole control frames mean

  datatype Frame = Frame(typeOctets: Bytes, lengthOctets: Bytes, payload: Bytes) {
    predicate Valid() {
      Varint.IsVarint(typeOctets) && Varint.IsVarint(lengthOctets) && Varint.Value(lengthOctets) == |payload|
    }

    function Type(): nat
      requires Valid()
    {
      Varint.Value(typeOctets)
    }

    function Wire(): Bytes {
      typeOctets + (lengthOctets + payload)
    }
  }

  predicate AllValid(frames: seq<Frame>) {
    forall f | f in frames :: f.Valid()
  }

  function Wires(frames: seq<Frame>): Bytes {
    if frames == [] then [] else frames[0].Wire() + Wires(frames[1..])
  }

  /** A control stream between two frames. */
  predicate AtBoundary(s: State) {
    && Inv(s) && s.streamType == TYPE_CONTROL && s.varint == []
    && s.ftype == UINT64_MAX && s.length == UINT64_MAX
  }

  /** What a complete frame does to the settings: Some(error) or the new settings. */
  datatype Effect = Refused(error: nat, settings: Settings.Settings) | Applied(settings: Settings.Settings)

  function FrameEffect(settings: Settings.Settings, f: Frame): Effect
    requires f.Valid()
  {
    if settings.received && f.Type() == FRAME_SETTINGS then Refused(FRAME_UNEXPECTED, settings)
    else if !settings.received && f.Type() != FRAME_SETTINGS then Refused(MISSING_SETTINGS, settings)
    else if Unacceptable(f.Type()) then Refused(INTERNAL_ERROR, settings)
    else if f.Type() != FRAME_SETTINGS then Applied(settings)
    else if f.payload == [] then Refused(SETTINGS_ERROR, settings)
    else if |f.payload| > MAX_LOAD then Refused(INTERNAL_ERROR, settings)
    else
      var d := Settings.DecodeComponents(f.payload, settings);
      if d.ok then Applied(d.settings.(received := true)) else Refused(SETTINGS_ERROR, d.settings)
  }

  function FrameEffects(settings: Settings.Settings, frames: seq<Frame>): Effect
    requires AllValid(frames)
    decreases |frames|
  {
    if frames == [] then Applied(settings)
    else
      match FrameEffect(settings, frames[0])
      case Refused(e, st) => Refused(e, st)
      case Applied(st) => FrameEffects(st, frames[1..])
  }

  /** What follows once the octets of the varint in progress may be complete. */
  ghost function Pending(s: State, sessions: set<nat>, rest: Bytes): Outcome {
    if ReadsVarint(s) && Varint.IsVarint(s.varint)
    then Then(OnVarint(s.(varint := []), sessions, Varint.Value(s.varint)), sessions, rest)
    else Feed(s, sessions, rest)
  }

  lemma PendingStep(s: State, sessions: set<nat>, rest: Bytes)
    requires ReadsVarint(s) && !Varint.IsVarint(s.varint) && rest != []
    ensures Pending(s, sessions, rest) == Pending(s.(varint := s.varint + [rest[0]]), sessions, rest[1..])
  {
    hide OnVarint, Varint.Value, Varint.IsVarint, Finish;
    var v := s.varint + [rest[0]];
    assert Feed(s, sessions, rest) == Then(Take(s, sessions, rest[0]), sessions, rest[1..]);
    assert ReadsVarint(s.(varint := v));
    assert s.(varint := v).(varint := []) == s.(varint := []);
    if !Varint.IsVarint(v) { PrependNothing(Feed(s.(varint := v), sessions, rest[1..])); }
  }

  lemma PendingIsFeed(s: State, sessions: set<nat>, rest: Bytes)
    requires !Varint.IsVarint(s.varint)
    ensures Pending(s, sessions, rest) == Feed(s, sessions, rest)
  {
  }

  lemma PendingDone(s: State, sessions: set<nat>, rest: Bytes)
    requires ReadsVarint(s) && Varint.IsVarint(s.varint)
    ensures Pending(s, sessions, rest)
         == Then(OnVarint(s.(varint := []), sessions, Varint.Value(s.varint)), sessions, rest)
  {
  }

  /** The octets of a varint accumulate until it is complete. */
  lemma {:induction false} PendingVarint(s: State, sessions: set<nat>, done: Bytes, v: Bytes, rest: Bytes)
    requires ReadsVarint(s) && Varint.IsVarint(v) && done <= v
    ensures Pending(s.(varint := done), sessions, v[|done|..] + rest)
         == Then(OnVarint(s.(varint := []), sessions, Varint.Value(v)), sessions, rest)
    decreases |v| - |done|
  {
    hide OnVarint, Varint.Value, Feed;
    var bs := v[|done|..] + rest;
    if done == v {
      assert bs == rest && s.(varint := v).(varint := []) == s.(varint := []);
    } else {
      var next := done + [bs[0]];
      assert next == v[..|done| + 1];
      assert bs[1..] == v[|next|..] + rest;
      assert !Varint.IsVarint(done);
      PendingStep(s.(varint := done), sessions, bs);
      assert s.(varint := done).(varint := next) == s.(varint := next);
      PendingVarint(s, sessions, next, v, rest);
    }
  }

  lemma FeedVarint(s: State, sessions: set<nat>, v: Bytes, rest: Bytes)
    requires ReadsVarint(s) && s.varint == [] && Varint.IsVarint(v)
    ensures Feed(s, sessions, v + rest) == Then(OnVarint(s, sessions, Varint.Value(v)), sessions, rest)
  {
    hide OnVarint, Varint.Value, Feed;
    assert v[0..] == v && s.(varint := []) == s;
    PendingVarint(s, sessions, [], v, rest);
  }

  /** A run of payload octets acts like one absorption. */
  lemma {:induction false} FeedPayload(s: State, sessions: set<nat>, bs: Bytes)
    requires s.streamType == TYPE_CONTROL && s.ftype != UINT64_MAX && s.length != UINT64_MAX
    requires bs != [] && s.read + |bs| == s.length
    ensures Feed(s, sessions, bs) == Finish(Absorb(s, bs))
    decreases |bs|
  {
    hide Finish;
    var b, rest := bs[0], bs[1..];
    assert [b] + rest == bs;
    var s1 := Absorb(s, [b]);
    if rest == [] {
      assert bs == [b];
      ThenNothing(Finish(s1), sessions);
      assert Take(s, sessions, b) == Finish(s1);
    } else {
      FeedPayload(s1, sessions, rest);
      if s.frame.Some? { assert s.frame.value + [b] + rest == s.frame.value + bs; }
      assert Absorb(s1, rest) == Absorb(s, bs);
      assert Take(s, sessions, b) == Run(s1, []);
      PrependNothing(Feed(s1, sessions, rest));
    }
  }

  /** What stands before the next octet of a frame whose length is known: StartFrame
      unless part of the frame is stored already. */
  function Content(s: State): Outcome {
    if s.frame.Some? then Run(s, []) else StartFrame(s)
  }

  predicate InFrame(s: State) {
    s.streamType == TYPE_CONTROL && s.ftype != UINT64_MAX && s.length != UINT64_MAX
  }

  /** Payload that stops short of the end of the frame. */
  lemma {:induction false} FeedPartialPayload(s: State, sessions: set<nat>, bs: Bytes)
    requires s.streamType == TYPE_CONTROL && s.ftype != UINT64_MAX && s.length != UINT64_MAX
    requires s.read + |bs| < s.length
    ensures Feed(s, sessions, bs) == Run(Absorb(s, bs), [])
    decreases |bs|
  {
    hide Finish;
    if bs == [] {
      if s.frame.Some? { assert s.frame.value + [] == s.frame.value; }
    } else {
      var b, rest := bs[0], bs[1..];
      assert [b] + rest == bs;
      var s1 := Absorb(s, [b]);
      FeedPartialPayload(s1, sessions, rest);
      if s.frame.Some? { assert s.frame.value + [b] + rest == s.frame.value + bs; }
      assert Absorb(s1, rest) == Absorb(s, bs);
      assert Take(s, sessions, b) == Run(s1, []);
    }
  }

  /** One step of the payload: as many octets as the frame still takes. */
  lemma FeedSome(s: State, sessions: set<nat>, bs: Bytes, rest: Bytes)
    requires s.streamType == TYPE_CONTROL && s.ftype != UINT64_MAX && s.length != UINT64_MAX
    requires s.read + |bs| <= s.length && s.read < s.length
    ensures Feed(s, sessions, bs + rest)
         == if s.read + |bs| == s.length then Then(Finish(Absorb(s, bs)), sessions, rest)
            else Feed(Absorb(s, bs), sessions, rest)
  {
    hide Finish, Feed, Absorb;
    FeedAppend(s, sessions, bs, rest);
    if s.read + |bs| == s.length {
      FeedPayload(s, sessions, bs);
    } else {
      FeedPartialPayload(s, sessions, bs);
      PrependNothing(Feed(Absorb(s, bs), sessions, rest));
    }
  }

  lemma ThenNothing(o: Outcome, sessions: set<nat>)
    ensures Then(o, sessions, []) == o
  {
    if o.Run? { assert o.data + [] == o.data; }
  }

  /** The state after a frame that was applied. */
  function After(s: State, settings: Settings.Settings, f: Frame): State
    requires f.Valid()
  {
    s.(settings := settings, ignored := s.ignored || f.Type() != FRAME_SETTINGS)
  }

  lemma PayloadThrough(s: State, sessions: set<nat>, payload: Bytes, rest: Bytes)
    requires s.streamType == TYPE_CONTROL && s.ftype != UINT64_MAX && s.read == 0 && s.frame.None?
    requires |payload| < UINT64_MAX
    ensures Then(StartFrame(s.(length := |payload|)), sessions, payload + rest)
         == if payload != [] && !s.ignored && |payload| > MAX_LOAD then Fail(INTERNAL_ERROR, s.settings, [])
            else Then(Finish(s.(length := |payload|, read := |payload|,
                                frame := if payload == [] || s.ignored then None else Some(payload))), sessions, rest)
  {
    hide Finish, Feed;
    var s1 := s.(length := |payload|);
    var o := StartFrame(s1);
    if payload == [] {
      assert payload + rest == rest && s1 == s1.(read := 0, frame := None);
    } else if o.Run? {
      var s2 := o.state;
      FeedAppend(s2, sessions, payload, rest);
      FeedPayload(s2, sessions, payload);
      assert [] + payload == payload;
      PrependNothing(Feed(s2, sessions, payload + rest));
    }
  }

  /** One frame at a boundary, whatever follows it. */
  lemma FrameThrough(s: State, sessions: set<nat>, f: Frame, rest: Bytes)
    requires AtBoundary(s) && f.Valid()
    ensures var e := FrameEffect(s.settings, f);
            Feed(s, sessions, f.Wire() + rest)
            == if e.Refused? then Fail(e.error, e.settings, []) else Feed(After(s, e.settings, f), sessions, rest)
    ensures FrameEffect(s.settings, f).Applied? ==> AtBoundary(After(s, FrameEffect(s.settings, f).settings, f))
  {
    hide Feed, StartFrame, Settings.DecodeComponents, Varint.Value;
    Varint.ValueBound(f.typeOctets);
    Varint.ValueBound(f.lengthOctets);
    var tail := f.lengthOctets + (f.payload + rest);
    assert f.Wire() + rest == f.typeOctets + tail;
    FeedVarint(s, sessions, f.typeOctets, tail);
    var o := CheckType(s, f.Type());
    if o.Run? {
      var s1 := o.state;
      PrependNothing(Feed(s1, sessions, tail));
      FeedVarint(s1, sessions, f.lengthOctets, f.payload + rest);
      PayloadThrough(s1, sessions, f.payload, rest);
      if f.payload == [] || s1.ignored || |f.payload| <= MAX_LOAD { FinishEffect(s, f, s1); }
      if FrameEffect(s.settings, f).Applied? {
        PrependNothing(Feed(After(s, FrameEffect(s.settings, f).settings, f), sessions, rest));
      }
    }
  }

  lemma FinishEffect(s: State, f: Frame, s1: State)
    requires AtBoundary(s) && f.Valid() && CheckType(s, f.Type()) == Run(s1, [])
    requires f.payload != [] && !s1.ignored ==> |f.payload| <= MAX_LOAD
    ensures Finish(s1.(length := |f.payload|, read := |f.payload|,
                       frame := if f.payload == [] || s1.ignored then None else Some(f.payload)))
         == match FrameEffect(s.settings, f)
            case Refused(e, st) => Fail(e, st, [])
            case Applied(st) => Run(After(s, st, f), [])
    ensures FrameEffect(s.settings, f).Applied? ==> AtBoundary(After(s, FrameEffect(s.settings, f).settings, f))
  {
    hide Settings.DecodeComponents, Varint.Value;
  }

  /** Any list of frames, fed in any cut (ChunkingNeverMatters): the settings and the
      error are those of the frames one after the other. */
  lemma {:induction false} FramesThrough(s: State, sessions: set<nat>, frames: seq<Frame>)
    requires AtBoundary(s) && AllValid(frames)
    ensures var e, o := FrameEffects(s.settings, frames), Feed(s, sessions, Wires(frames));
            && (e.Refused? ==> o == Fail(e.error, e.settings, []))
            && (e.Applied? ==> o.Run? && o.data == [] && o.state.settings == e.settings && AtBoundary(o.state))
    decreases |frames|
  {
    hide Feed, FrameEffect, Frame.Wire;
    if frames == [] {
      FeedNone(s, sessions);
    } else {
      var f := frames[0];
      FrameThrough(s, sessions, f, Wires(frames[1..]));
      var e := FrameEffect(s.settings, f);
      if e.Applied? { FramesThrough(After(s, e.settings, f), sessions, frames[1..]); }
    }
  }

  /** The first frame of a control stream: SETTINGS with 1 to 0x10000 octets that decode, or
      which error ends the connection. */
  lemma FirstFrame(f: Frame)
    requires f.Valid()
    ensures var d := Settings.DecodeComponents(f.payload, Settings.NO_SETTINGS);
            var e := FrameEffect(Settings.NO_SETTINGS, f);
            if f.Type() != 0x4 then e == Refused(0x010A, Settings.NO_SETTINGS)
            else if f.payload == [] then e == Refused(0x0109, Settings.NO_SETTINGS)
            else if |f.payload| > 0x1_0000 then e == Refused(0x0102, Settings.NO_SETTINGS)
            else if !d.ok then e == Refused(0x0109, d.settings)
            else e == Applied(d.settings.(received := true))
  {
    hide Varint.Value, Settings.DecodeComponents;
  }

  /** A frame behind SETTINGS: DATA, HEADERS, PUSH_PROMISE, WebTransport frames and a second SETTINGS
      frame end the connection; all others, CANCEL_PUSH (0x3), GOAWAY (0x7), MAX_PUSH_ID (0xD) and
      unknown ones, are passed over whatever they hold. */
  lemma LaterFrame(settings: Settings.Settings, f: Frame)
    requires settings.received && f.Valid()
    ensures f.Type() in {0x0, 0x1, 0x5, 0x41} ==> FrameEffect(settings, f) == Refused(0x0102, settings)
    ensures f.Type() == 0x4 ==> FrameEffect(settings, f) == Refused(0x0105, settings)
    ensures f.Type() !in {0x0, 0x1, 0x4, 0x5, 0x41} ==> FrameEffect(settings, f) == Applied(settings)
  {
    hide Varint.Value, Settings.DecodeComponents;
  }

  /** The control streams that are accepted: one non-empty SETTINGS frame of at most
      0x10000 octets that decodes, then frames that are not SETTINGS and do not
      belong to request or WebTransport streams. */
  predicate Legal(frames: seq<Frame>)
    requires AllValid(frames)
  {
    frames != [] ==>
      && frames[0].Type() == 0x4 && 0 < |frames[0].payload| <= 0x1_0000
      && Settings.DecodeComponents(frames[0].payload, Settings.NO_SETTINGS).ok
      && forall i | 0 < i < |frames| :: frames[i].Type() !in {0x0, 0x1, 0x4, 0x5, 0x41}
  }

  lemma {:induction false} LaterFrames(settings: Settings.Settings, frames: seq<Frame>)
    requires settings.received && AllValid(frames)
    ensures FrameEffects(settings, frames).Applied?
       <==> forall i | 0 <= i < |frames| :: frames[i].Type() !in {0x0, 0x1, 0x4, 0x5, 0x41}
    ensures FrameEffects(settings, frames).Applied? ==> FrameEffects(settings, frames).settings == settings
    decreases |frames|
  {
    hide Varint.Value, Settings.DecodeComponents, Frame.Type, Frame.Valid, FrameEffect;
    if frames != [] {
      LaterFrame(settings, frames[0]);
      LaterFrames(settings, frames[1..]);
      assert forall i | 0 <= i < |frames[1..]| :: frames[1..][i] == frames[i + 1];
      assert forall i | 0 < i < |frames| :: frames[i] == frames[1..][i - 1];
    }
  }

  /** A control stream from its start: accepted exactly when Legal, and then the
      settings are those of its SETTINGS frame and nothing else. */
  lemma AcceptedIffLegal(frames: seq<Frame>)
    requires AllValid(frames)
    ensures FrameEffects(Settings.NO_SETTINGS, frames).Applied? <==> Legal(frames)
    ensures Legal(frames) && frames != [] ==>
              FrameEffects(Settings.NO_SETTINGS, frames)
              == Applied(Settings.DecodeComponents(frames[0].payload, Settings.NO_SETTINGS).settings.(received := true))
  {
    hide Varint.Value, Settings.DecodeComponents, Frame.Type, Frame.Valid;
    if frames != [] {
      var e := FrameEffect(Settings.NO_SETTINGS, frames[0]);
      if e.Applied? {
        LaterFrames(e.settings, frames[1..]);
        assert forall i | 0 < i < |frames| :: frames[i] == frames[1..][i - 1];
        assert forall i | 0 <= i < |frames[1..]| :: frames[1..][i] == frames[i + 1];
      }
    }
  }

  /** The stream type octets select the control stream parser. */
  lemma StreamStart(settings: Settings.Settings, sessions: set<nat>, rest: Bytes)
    ensures Feed(Initial(settings), sessions, [0x00] + rest)
         == Feed(Reset(Initial(settings).(streamType := TYPE_CONTROL)), sessions, rest)
    ensures AtBoundary(Reset(Initial(settings).(streamType := TYPE_CONTROL)))
  {
    var s := Initial(settings);
    var v: Bytes := [0x00];
    Varint.WtDecodeIsParse(v);
    assert v[..1] == v;
    hide Feed;
    FeedVarint(s, sessions, v, rest);
    PrependNothing(Feed(OnVarint(s, sessions, 0).state, sessions, rest));
  }

  /** A whole control stream, in any chunks: it runs exactly when its frames are Legal,
      and it leaves the settings of the one SETTINGS frame. */
  lemma ControlStream(sessions: set<nat>, frames: seq<Frame>, chunks: seq<Bytes>)
    requires AllValid(frames) && Join(chunks) == [0x00] + Wires(frames)
    ensures var o := FeedAll(Initial(Settings.NO_SETTINGS), sessions, chunks);
            && (o.Run? <==> Legal(frames))
            && o.data == []
            && (Legal(frames) && frames != [] ==>
                  o.state.settings
                  == Settings.DecodeComponents(frames[0].payload, Settings.NO_SETTINGS).settings.(received := true))
  {
    hide Feed, FeedAll, Legal, Settings.DecodeComponents, Wires;
    ChunkingNeverMatters(Initial(Settings.NO_SETTINGS), sessions, chunks);
    StreamStart(Settings.NO_SETTINGS, sessions, Wires(frames));
    FramesThrough(Reset(Initial(Settings.NO_SETTINGS).(streamType := TYPE_CONTROL)), sessions, frames);
    AcceptedIffLegal(frames);
  }

  lemma {:induction false} EffectsSnoc(settings: Settings.Settings, frames: seq<Frame>, f: Frame)
    requires AllValid(frames) && f.Valid()
    ensures AllValid(frames + [f])
    ensures FrameEffects(settings, frames + [f])
         == match FrameEffects(settings, frames)
            case Refused(e, st) => Refused(e, st)
            case Applied(st) => FrameEffect(st, f)
    decreases |frames|
  {
    hide FrameEffect, Frame.Valid;
    if frames == [] {
      assert frames + [f] == [f] && [f][1..] == frames;
    } else {
      assert (frames + [f])[1..] == frames[1..] + [f];
      var e := FrameEffect(settings, frames[0]);
      if e.Applied? { EffectsSnoc(e.settings, frames[1..], f); }
    }
  }

  lemma {:induction false} EffectsStop(settings: Settings.Settings, frames: seq<Frame>, more: seq<Frame>)
    requires AllValid(frames) && AllValid(more) && FrameEffects(settings, frames).Refused?
    ensures AllValid(frames + more) && FrameEffects(settings, frames + more) == FrameEffects(settings, frames)
    decreases |frames|
  {
    hide FrameEffect, Frame.Valid;
    assert (frames + more)[1..] == frames[1..] + more;
    var e := FrameEffect(settings, frames[0]);
    if e.Applied? { EffectsStop(e.settings, frames[1..], more); }
  }

  /** The error that a frame behind legal ones ends a control stream with; none if it is legal too. */
  function FrameError(first: bool, f: Frame): Option<nat>
    requires f.Valid()
  {
    if first then
      if f.Type() != 0x4 then Some(0x010A)
      else if f.payload == [] then Some(0x0109)
      else if |f.payload| > 0x1_0000 then Some(0x0102)
      else if !Settings.DecodeComponents(f.payload, Settings.NO_SETTINGS).ok then Some(0x0109)
      else None
    else if f.Type() == 0x4 then Some(0x0105)
    else if f.Type() in {0x0, 0x1, 0x5, 0x41} then Some(0x0102)
    else None
  }

  /** The first frame that is not legal decides the error, whatever follows it. */
  lemma EffectOfIllegal(frames: seq<Frame>, f: Frame, more: seq<Frame>)
    requires AllValid(frames) && f.Valid() && AllValid(more)
    requires Legal(frames) && FrameError(frames == [], f).Some?
    ensures AllValid(frames + [f] + more)
    ensures var e := FrameEffects(Settings.NO_SETTINGS, frames + [f] + more);
            e.Refused? && e.error == FrameError(frames == [], f).value
  {
    hide Varint.Value, Settings.DecodeComponents, Frame.Type, Frame.Valid, FrameEffect, Legal;
    AcceptedIffLegal(frames);
    EffectsSnoc(Settings.NO_SETTINGS, frames, f);
    if frames == [] {
      FirstFrame(f);
    } else {
      LaterFrame(FrameEffects(Settings.NO_SETTINGS, frames).settings, f);
    }
    EffectsStop(Settings.NO_SETTINGS, frames + [f], more);
  }

  /** The same for the octets, in any chunks: the connection ends with that error. */
  lemma ControlStreamError(sessions: set<nat>, frames: seq<Frame>, f: Frame, more: seq<Frame>, chunks: seq<Bytes>)
    requires AllValid(frames) && f.Valid() && AllValid(more)
    requires Legal(frames) && FrameError(frames == [], f).Some?
    requires Join(chunks) == [0x00] + Wires(frames + [f] + more)
    ensures var o := FeedAll(Initial(Settings.NO_SETTINGS), sessions, chunks);
            o.Fail? && o.error == FrameError(frames == [], f).value
  {
    hide Feed, FeedAll, Legal, Settings.DecodeComponents, Wires, FrameError;
    EffectOfIllegal(frames, f, more);
    var all := frames + [f] + more;
    ChunkingNeverMatters(Initial(Settings.NO_SETTINGS), sessions, chunks);
    StreamStart(Settings.NO_SETTINGS, sessions, Wires(all));
    FramesThrough(Reset(Initial(Settings.NO_SETTINGS).(streamType := TYPE_CONTROL)), sessions, all);
  }

  // ------------------------------------------------ streams without a parser

  /** A bound WebTransport stream passes everything on. */
  lemma {:induction false} FeedPassThrough(s: State, sessions: set<nat>, bs: Bytes)
    requires !ReadsVarint(s) && s.streamType == TYPE_WEBTRANSPORT
    ensures Feed(s, sessions, bs) == Run(s, bs)
    decreases |bs|
  {
    if bs != [] {
      FeedPassThrough(s, sessions, bs[1..]);
      assert [bs[0]] + bs[1..] == bs;
    }
  }

  /** A WebTransport stream from its start, in any chunks: bound to its session and from
      there on every octet is the application's, if the session was declared. */
  lemma WebTransportStream(settings: Settings.Settings, sessions: set<nat>, session: nat, data: Bytes,
                           chunks: seq<Bytes>)
    requires session < Varint.LIMIT
    requires Join(chunks) == Varint.Encode(0x54) + (Varint.Encode(session) + data)
    ensures FeedAll(Initial(settings), sessions, chunks)
         == if session in sessions
            then Run(Initial(settings).(streamType := 0x54, sessionId := session), data)
            else Fail(0, settings, [])
  {
    hide Varint.Encode, Varint.Value, Feed, FeedAll;
    var s := Initial(settings);
    ChunkingNeverMatters(s, sessions, chunks);
    Varint.EncodeParses(TYPE_WEBTRANSPORT, []);
    Varint.EncodeParses(session, []);
    var tail := Varint.Encode(session) + data;
    FeedVarint(s, sessions, Varint.Encode(TYPE_WEBTRANSPORT), tail);
    var s1 := s.(streamType := TYPE_WEBTRANSPORT);
    PrependNothing(Feed(s1, sessions, tail));
    FeedVarint(s1, sessions, Varint.Encode(session), data);
    if session in sessions {
      var s2 := s1.(sessionId := session);
      FeedPassThrough(s2, sessions, data);
      PrependNothing(Feed(s2, sessions, data));
    }
  }

  /** Any other stream, in any chunks: the octets behind its type go nowhere. */
  lemma OtherStream(settings: Settings.Settings, sessions: set<nat>, t: nat, data: Bytes, chunks: seq<Bytes>)
    requires t < Varint.LIMIT && t != 0x0 && t != 0x54
    requires Join(chunks) == Varint.Encode(t) + data
    ensures FeedAll(Initial(settings), sessions, chunks) == Run(Initial(settings).(streamType := t), [])
  {
    hide Varint.Encode, Varint.Value, Feed, FeedAll;
    var s := Initial(settings);
    ChunkingNeverMatters(s, sessions, chunks);
    Varint.EncodeParses(t, []);
    FeedVarint(s, sessions, Varint.Encode(t), data);
    FeedDropped(s.(streamType := t), sessions, data);
  }

  /** Push, QPACK and unknown streams swallow everything. */
  lemma {:induction false} FeedDropped(s: State, sessions: set<nat>, bs: Bytes)
    requires !ReadsVarint(s) && s.streamType != TYPE_WEBTRANSPORT && s.streamType != TYPE_CONTROL
    ensures Feed(s, sessions, bs) == Run(s, [])
    decreases |bs|
  {
    if bs != [] { FeedDropped(s, sessions, bs[1..]); }
  }
}
