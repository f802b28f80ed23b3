/** What the WebTransport client makes of the chunks of a stream: the header with the
    session id, frames behind a length and a time stamp, pictures without a length. */
module WtStream {
  import opened Bytes
  import Varint
  import Jpeg

  const WT_STREAM: nat := 0x54
  const MAX_FRAME: nat := 32 * 1024 * 1024

  /** wt_stream_t; `got` holds the octets of the buffer that count. */
  datatype Stream = Stream(headerOk: bool, framing: bool, curLen: nat, ptsLen: nat, got: Bytes)

  const NEW: Stream := Stream(false, false, 0, 0, [])
  const OPEN: Stream := Stream(true, false, 0, 0, [])

  /** The session of the client and its --max-frames. */
  datatype Config = Config(session: nat, maxFrames: int)

  /** payload_need */
  function Need(s: Stream): nat {
    if s.curLen > s.ptsLen then s.curLen - s.ptsLen else 0
  }

  predicate Reached(c: Config, saved: nat) {
    c.maxFrames > 0 && saved >= c.maxFrames
  }

  /** A payload is as long as needed or shorter; it is complete only after the last
      frame that was wanted, which the code leaves where it is. */
  predicate Valid(s: Stream, saved: nat, c: Config) {
    && s.curLen <= MAX_FRAME
    && (s.framing && Need(s) > 0 ==> |s.got| <= Need(s) && (|s.got| == Need(s) ==> Reached(c, saved)))
    && (s.framing && Need(s) == 0 ==> s.got == [])
    && (!s.headerOk ==> s == NEW)
  }

  /** The stream after a chunk, the frames saved, the value returned, whether the client
      was told to stop. `clean` says that no octet of the chunk was thrown away, that every
      time stamp came with its length, and that pictures were not searched for. */
  datatype Outcome = Outcome(next: Stream, frames: seq<Bytes>, ret: int, stopped: bool, clean: bool)

  function Then(frame: Bytes, o: Outcome): Outcome {
    o.(frames := [frame] + o.frames)
  }

  /** The two varints of the stream header, when both are there. */
  datatype Header = Missing | Header(streamType: nat, session: nat, used: nat)

  function ReadHeader(bytes: Bytes): Header {
    var t := Varint.Parse(bytes);
    if t.Incomplete? then Missing
    else
      var i := Varint.Parse(bytes[t.used..]);
      if i.Incomplete? then Missing else Header(t.value, i.value, t.used + i.used)
  }

  /** The octets behind a length: a time stamp, when all of it is there. */
  function PtsLength(bytes: Bytes): nat {
    var p := Varint.Parse(bytes);
    if p.Incomplete? then 0 else p.used
  }

  function Handle(s: Stream, saved: nat, c: Config, bytes: Bytes): (o: Outcome)
    requires Valid(s, saved, c)
    ensures Valid(o.next, saved + |o.frames|, c)
    decreases |bytes|, 3
  {
    if bytes == [] then Outcome(s, [], 0, false, true)
    else if !s.headerOk then
      var h := ReadHeader(bytes);
      if h.Missing? then Outcome(s, [], 0, false, false)
      else if h.streamType != WT_STREAM || h.session != c.session then Outcome(s, [], -1, false, false)
      else
        HeaderUsed(bytes);
        Handle(OPEN, saved, c, bytes[h.used..])
    else if s.framing then Receive(s, saved, c, bytes)
    else if s.curLen == 0 then Detect(s, saved, c, bytes)
    else Search(s, saved, c, bytes)
  }

  /** Is there a length in front? Lengths of 0 and above MAX_FRAME are none. */
  function Detect(s: Stream, saved: nat, c: Config, bytes: Bytes): (o: Outcome)
    requires s.headerOk && !s.framing && s.curLen == 0 && bytes != []
    ensures Valid(o.next, saved + |o.frames|, c)
    decreases |bytes|, 1
  {
    var p := Varint.Parse(bytes);
    if p.Incomplete? then Outcome(s, [], 0, false, false)
    else if p.value == 0 || p.value > MAX_FRAME then Search(s, saved, c, bytes)
    else
      Varint.ParseUsed(bytes);
      var rest := bytes[p.used..];
      Varint.ParseUsed(rest);
      var n := PtsLength(rest);
      var o := Receive(Stream(true, true, p.value, n, []), saved, c, rest[n..]);
      o.(clean := o.clean && n > 0)
  }

  /** Payload octets; a complete frame is saved. */
  function Receive(s: Stream, saved: nat, c: Config, bytes: Bytes): (o: Outcome)
    requires Valid(s, saved, c) && s.headerOk && s.framing
    ensures Valid(o.next, saved + |o.frames|, c)
    decreases |bytes|, 2
  {
    var need := Need(s);
    if need == 0 then
      var t := s.(framing := false);
      if bytes == [] then Outcome(t, [], 0, false, true)
      else if s.curLen == 0 then Detect(t, saved, c, bytes)
      else Search(t, saved, c, bytes)
    else
      var take := if need - |s.got| < |bytes| then need - |s.got| else |bytes|;
      var all := s.got + bytes[..take];
      if |all| < need then Outcome(s.(got := all), [], 0, false, true)
      else if Reached(c, saved + 1) then Outcome(s.(got := all), [all], 0, true, false)
      else Then(all, Handle(Stream(true, true, 0, 0, []), saved + 1, c, bytes[take..]))
  }

  /** Pictures by their markers, in what stayed and the chunk. */
  function Search(s: Stream, saved: nat, c: Config, bytes: Bytes): (o: Outcome)
    requires s.headerOk && !s.framing && s.curLen <= MAX_FRAME
    ensures Valid(o.next, saved + |o.frames|, c)
    decreases |bytes|, 0
  {
    var x := Jpeg.Extract(s.got + bytes);
    Outcome(s.(got := x.residue), x.frames, 0, Reached(c, saved + |x.frames|), false)
  }

  lemma HeaderUsed(bytes: Bytes)
    ensures ReadHeader(bytes).Header? ==> 0 < ReadHeader(bytes).used <= |bytes|
  {
    Varint.ParseUsed(bytes);
    if Varint.Parse(bytes).Complete? { Varint.ParseUsed(bytes[Varint.Parse(bytes).used..]); }
  }

  // ------------------------------------------------------- chunk after chunk

  function HandleAll(s: Stream, saved: nat, c: Config, chunks: seq<Bytes>): (o: Outcome)
    requires Valid(s, saved, c)
    ensures Valid(o.next, saved + |o.frames|, c)
    decreases |chunks|
  {
    if chunks == [] then Outcome(s, [], 0, false, true)
    else
      var o := Handle(s, saved, c, chunks[0]);
      After(o, HandleAll(o.next, saved + |o.frames|, c, chunks[1..]))
  }

  /** One chunk, then the others: the first error and any order to stop count. */
  function After(o: Outcome, p: Outcome): Outcome {
    Outcome(p.next, o.frames + p.frames, if o.ret != 0 then o.ret else p.ret, o.stopped || p.stopped,
      o.clean && p.clean)
  }

  // Steps of the functions above, one at a time.

  lemma HandleNothing(s: Stream, saved: nat, c: Config)
    requires Valid(s, saved, c)
    ensures Handle(s, saved, c, []) == Outcome(s, [], 0, false, true)
  {
  }

  lemma HandleHeader(saved: nat, c: Config, bytes: Bytes)
    requires bytes != []
    ensures var h := ReadHeader(bytes);
            && (h.Missing? ==> Handle(NEW, saved, c, bytes) == Outcome(NEW, [], 0, false, false))
            && (h.Header? ==>
                  && 0 < h.used <= |bytes|
                  && Handle(NEW, saved, c, bytes)
                     == if h.streamType != WT_STREAM || h.session != c.session then Outcome(NEW, [], -1, false, false)
                        else Handle(OPEN, saved, c, bytes[h.used..]))
  {
    HeaderUsed(bytes);
    hide ReadHeader, Receive, Detect, Search;
  }

  lemma HandleFraming(s: Stream, saved: nat, c: Config, bytes: Bytes)
    requires Valid(s, saved, c) && s.headerOk && s.framing && bytes != []
    ensures Handle(s, saved, c, bytes) == Receive(s, saved, c, bytes)
  {
    hide ReadHeader, Receive, Detect, Search;
  }

  lemma HandleLength(s: Stream, saved: nat, c: Config, bytes: Bytes)
    requires Valid(s, saved, c) && s.headerOk && s.curLen == 0 && bytes != [] && s.got == []
    ensures Handle(s, saved, c, bytes) == Detect(s.(framing := false), saved, c, bytes)
  {
    hide ReadHeader, Detect, Search;
  }

  lemma HeaderPrefix(a: Bytes, b: Bytes)
    requires ReadHeader(a).Header?
    ensures ReadHeader(a + b) == ReadHeader(a)
  {
    hide Varint.Parse;
    Varint.ParsePrefix(a, b);
    Varint.ParseUsed(a);
    var n := Varint.Parse(a).used;
    assert (a + b)[n..] == a[n..] + b;
    Varint.ParsePrefix(a[n..], b);
  }

  lemma ReceiveShort(s: Stream, saved: nat, c: Config, bytes: Bytes)
    requires Valid(s, saved, c) && s.headerOk && s.framing && |s.got| + |bytes| < Need(s)
    ensures Receive(s, saved, c, bytes) == Outcome(s.(got := s.got + bytes), [], 0, false, true)
  {
    hide Handle, Detect, Search;
    assert bytes[..|bytes|] == bytes;
  }

  lemma ReceiveFull(s: Stream, saved: nat, c: Config, bytes: Bytes)
    requires Valid(s, saved, c) && s.headerOk && s.framing && |s.got| <= Need(s) <= |s.got| + |bytes| && Need(s) > 0
    ensures var take := Need(s) - |s.got|;
            var all := s.got + bytes[..take];
            Receive(s, saved, c, bytes)
            == if Reached(c, saved + 1) then Outcome(s.(got := all), [all], 0, true, false)
               else Then(all, Handle(Stream(true, true, 0, 0, []), saved + 1, c, bytes[take..]))
  {
    hide Handle, Detect, Search;
  }

  lemma HandleOpen(s: Stream, saved: nat, c: Config, bytes: Bytes)
    requires Valid(s, saved, c) && s.headerOk && !s.framing && bytes != []
    ensures s.curLen == 0 ==> Handle(s, saved, c, bytes) == Detect(s, saved, c, bytes)
    ensures s.curLen != 0 ==> Handle(s, saved, c, bytes) == Search(s, saved, c, bytes)
    ensures s.curLen != 0 ==> !Handle(s, saved, c, bytes).clean
  {
    hide Detect, ReadHeader, Receive, Jpeg.Extract;
  }

  /** A length that leaves no payload: framing is given up. */
  lemma ReceiveNone(s: Stream, saved: nat, c: Config, bytes: Bytes)
    requires Valid(s, saved, c) && s.headerOk && s.framing && Need(s) == 0
    ensures bytes == [] ==> Receive(s, saved, c, bytes) == Outcome(s.(framing := false), [], 0, false, true)
    ensures bytes != [] ==> Receive(s, saved, c, bytes) == Handle(s.(framing := false), saved, c, bytes)
  {
    hide Handle, Detect, Search;
    if bytes != [] { HandleOpen(s.(framing := false), saved, c, bytes); }
  }

  /** A clean chunk and the next one act like one chunk. */
  lemma {:induction false} HandleAppend(s: Stream, saved: nat, c: Config, a: Bytes, b: Bytes)
    requires Valid(s, saved, c) && Handle(s, saved, c, a).clean
    ensures var o := Handle(s, saved, c, a);
            Handle(s, saved, c, a + b) == After(o, Handle(o.next, saved + |o.frames|, c, b))
    decreases |a|, 3
  {
    hide Handle, Receive, Detect, Search, ReadHeader, Valid;
    if a == [] {
      assert a + b == b;
      HandleNothing(s, saved, c);
      AfterNothing(s, Handle(s, saved, c, b));
    } else if !s.headerOk {
      IsNew(s, saved, c);
      HandleHeader(saved, c, a);
      HeaderPrefix(a, b);
      HandleHeader(saved, c, a + b);
      var used := ReadHeader(a).used;
      assert (a + b)[used..] == a[used..] + b;
      HandleAppend(OPEN, saved, c, a[used..], b);
    } else if s.framing {
      HandleFraming(s, saved, c, a);
      HandleFraming(s, saved, c, a + b);
      ReceiveAppend(s, saved, c, a, b);
    } else {
      HandleOpen(s, saved, c, a);
      HandleOpen(s, saved, c, a + b);
      DetectAppend(s, saved, c, a, b);
    }
  }

  lemma IsNew(s: Stream, saved: nat, c: Config)
    requires Valid(s, saved, c) && !s.headerOk
    ensures s == NEW && Valid(OPEN, saved, c)
  {
  }

  lemma {:induction false} DetectAppend(s: Stream, saved: nat, c: Config, a: Bytes, b: Bytes)
    requires s.headerOk && !s.framing && s.curLen == 0 && a != [] && Detect(s, saved, c, a).clean
    ensures var o := Detect(s, saved, c, a);
            Detect(s, saved, c, a + b) == After(o, Handle(o.next, saved + |o.frames|, c, b))
    decreases |a|, 1
  {
    hide Handle, Receive, Varint.Parse;
    var p := Varint.Parse(a);
    Varint.ParsePrefix(a, b);
    Varint.ParseUsed(a);
    var rest := a[p.used..];
    assert (a + b)[p.used..] == rest + b;
    Varint.ParseUsed(rest);
    Varint.ParsePrefix(rest, b);
    var n := PtsLength(rest);
    assert (rest + b)[n..] == rest[n..] + b;
    ReceiveAppend(Stream(true, true, p.value, n, []), saved, c, rest[n..], b);
  }

  lemma {:induction false} ReceiveAppend(s: Stream, saved: nat, c: Config, a: Bytes, b: Bytes)
    requires Valid(s, saved, c) && s.headerOk && s.framing && Receive(s, saved, c, a).clean
    ensures var o := Receive(s, saved, c, a);
            Receive(s, saved, c, a + b) == After(o, Handle(o.next, saved + |o.frames|, c, b))
    decreases |a|, 2
  {
    hide Handle, Receive, Detect, Search;
    if Need(s) == 0 {
      var t := s.(framing := false);
      ReceiveNone(s, saved, c, a);
      ReceiveNone(s, saved, c, a + b);
      if a == [] {
        assert a + b == b;
        HandleNothing(t, saved, c);
        AfterNothing(t, Handle(t, saved, c, b));
      } else {
        HandleOpen(t, saved, c, a);
        HandleOpen(t, saved, c, a + b);
        DetectAppend(t, saved, c, a, b);
      }
    } else if |s.got| + |a| < Need(s) {
      ReceiveShort(s, saved, c, a);
      ReceiveInside(s, saved, c, a, b);
    } else {
      var take := Need(s) - |s.got|;
      ReceiveFull(s, saved, c, a);
      ReceiveFull(s, saved, c, a + b);
      assert (a + b)[..take] == a[..take] && (a + b)[take..] == a[take..] + b;
      var all := s.got + a[..take];
      var t := Stream(true, true, 0, 0, []);
      HandleAppend(t, saved + 1, c, a[take..], b);
      var o := Handle(t, saved + 1, c, a[take..]);
      ThenAfter(all, o, Handle(o.next, saved + 1 + |o.frames|, c, b));
    }
  }

  lemma ThenAfter(frame: Bytes, o: Outcome, p: Outcome)
    ensures Then(frame, After(o, p)) == After(Then(frame, o), p)
  {
    assert [frame] + (o.frames + p.frames) == [frame] + o.frames + p.frames;
  }

  lemma ReceiveInside(s: Stream, saved: nat, c: Config, a: Bytes, b: Bytes)
    requires Valid(s, saved, c) && s.headerOk && s.framing && |s.got| + |a| < Need(s)
    ensures var t := s.(got := s.got + a);
            Receive(s, saved, c, a + b) == After(Outcome(t, [], 0, false, true), Handle(t, saved, c, b))
  {
    hide Handle, Receive;
    var t := s.(got := s.got + a);
    if b == [] {
      assert a + b == a;
      ReceiveShort(s, saved, c, a);
      HandleNothing(t, saved, c);
    } else {
      HandleFraming(t, saved, c, b);
      AfterNothing(t, Receive(t, saved, c, b));
      if |t.got| + |b| < Need(s) {
        ReceiveShort(s, saved, c, a + b);
        ReceiveShort(t, saved, c, b);
        assert s.got + (a + b) == t.got + b;
      } else {
        ReceiveFull(s, saved, c, a + b);
        ReceiveFull(t, saved, c, b);
        var take := Need(s) - |s.got|;
        assert s.got + (a + b)[..take] == t.got + b[..take - |a|];
        assert (a + b)[take..] == b[take - |a|..];
      }
    }
  }

  lemma AfterNothing(s: Stream, o: Outcome)
    ensures After(Outcome(s, [], 0, false, true), o) == o
  {
  }
}
