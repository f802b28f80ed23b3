/** Frames with a length and a time stamp on a WebTransport stream: when the client
    rebuilds them, and what happens when their varints do not arrive together. */
module WtFrames {
  import opened Bytes
  import opened WtStream
  import Varint
  import Jpeg

  /** A time stamp, as the octets of a varint, and a payload. */
  datatype Timed = Timed(pts: Bytes, payload: Bytes)

  /** Behind a complete frame. */
  const READY: Stream := Stream(true, true, 0, 0, [])

  /** Between two frames. */
  predicate Between(s: Stream) {
    s == OPEN || s == READY
  }

  function Total(f: Timed): nat {
    |f.pts| + |f.payload|
  }

  predicate Sendable(f: Timed) {
    Varint.IsVarint(f.pts) && f.payload != [] && Total(f) <= 0x200_0000
  }

  predicate AllSendable(frames: seq<Timed>) {
    forall f | f in frames :: Sendable(f)
  }

  function FrameWire(f: Timed): Bytes {
    Varint.Encode(Total(f)) + (f.pts + f.payload)
  }

  function Wire(frames: seq<Timed>): Bytes {
    if frames == [] then [] else FrameWire(frames[0]) + Wire(frames[1..])
  }

  function StreamHeader(session: nat): Bytes {
    Varint.Encode(0x54) + Varint.Encode(session)
  }

  /** The header that the server and the client write on a new stream of a session. */
  method SendStreamHeader(session: nat) returns (sent: Bytes)
    requires session < Varint.LIMIT
    ensures sent == StreamHeader(session)
  {
    hide Varint.Encode;
    var hdr := new Byte[16];
    var off := Varint.QuicEncode(WT_STREAM, hdr, 0);
    ghost var t := hdr[..off];
    var n := Varint.QuicEncode(session, hdr, off);
    assert hdr[..off] == t && hdr[..off + n] == hdr[..off] + hdr[off..off + n];
    sent := hdr[..off + n];
  }

  function Payloads(frames: seq<Timed>): seq<Bytes> {
    if frames == [] then [] else [frames[0].payload] + Payloads(frames[1..])
  }

  // ------------------------------------------------------------ one frame

  /** A length, then octets of which the first n are taken for the time stamp. */
  lemma OpenFrame(s: Stream, saved: nat, c: Config, length: nat, rest: Bytes)
    requires Between(s) && 0 < length <= 0x200_0000
    ensures var n := PtsLength(rest);
            && n <= |rest|
            && var o := Receive(Stream(true, true, length, n, []), saved, c, rest[n..]);
               Handle(s, saved, c, Varint.Encode(length) + rest) == o.(clean := o.clean && n > 0)
  {
    hide Varint.Encode, Varint.Parse, Varint.Value, Handle, Receive;
    var e := Varint.Encode(length);
    var bytes := e + rest;
    Varint.EncodeParses(length, rest);
    Varint.ParseUsed(bytes);
    Varint.ParseUsed(rest);
    HandleLength(s, saved, c, bytes);
    assert bytes[|e|..] == rest;
  }

  lemma TakeFrame(s: Stream, saved: nat, c: Config, f: Timed, rest: Bytes)
    requires Between(s) && Sendable(f) && !Reached(c, saved + 1)
    ensures Handle(s, saved, c, FrameWire(f) + rest) == Then(f.payload, Handle(READY, saved + 1, c, rest))
  {
    hide Varint.Encode, Varint.Parse, Handle, Receive;
    var tail := f.pts + (f.payload + rest);
    assert FrameWire(f) + rest == Varint.Encode(Total(f)) + tail;
    OpenFrame(s, saved, c, Total(f), tail);
    Varint.VarintParses(f.pts, f.payload + rest);
    assert tail[|f.pts|..] == f.payload + rest;
    var open := Stream(true, true, Total(f), |f.pts|, []);
    ReceiveFull(open, saved, c, f.payload + rest);
    assert [] + (f.payload + rest)[..|f.payload|] == f.payload && (f.payload + rest)[|f.payload|..] == rest;
  }

  lemma {:induction false} TakeWire(s: Stream, saved: nat, c: Config, frames: seq<Timed>)
    requires Between(s) && AllSendable(frames) && !Reached(c, saved + |frames|)
    ensures Handle(s, saved, c, Wire(frames))
         == Outcome(if frames == [] then s else READY, Payloads(frames), 0, false, true)
    decreases |frames|
  {
    hide Handle, FrameWire;
    if frames == [] {
      HandleNothing(s, saved, c);
    } else {
      TakeFrame(s, saved, c, frames[0], Wire(frames[1..]));
      TakeWire(READY, saved + 1, c, frames[1..]);
    }
  }

  // ------------------------------------------------------------------ cuts

  /** Octet k lies inside the length and the time stamp of a frame, or between the two. */
  predicate InsideVarints(frames: seq<Timed>, k: nat)
    decreases |frames|
  {
    frames != [] &&
    var l, n := |Varint.Encode(Total(frames[0]))| + |frames[0].pts|, |frames[0].payload|;
    if k < l then k > 0 else k >= l + n && InsideVarints(frames[1..], k - l - n)
  }

  lemma PartOfVarint(v: Bytes, k: nat)
    requires Varint.IsVarint(v) && k < |v|
    ensures Varint.Parse(v[..k]).Incomplete?
  {
    if k > 0 { assert v[..k][0] == v[0]; }
  }

  lemma CutInVarints(s: Stream, saved: nat, c: Config, f: Timed, k: nat)
    requires Between(s) && Sendable(f) && 0 < k < |Varint.Encode(Total(f))| + |f.pts|
    ensures !Handle(s, saved, c, FrameWire(f)[..k]).clean
  {
    hide Varint.Encode, Varint.Parse, Varint.Value, Handle, Receive;
    var e := Varint.Encode(Total(f));
    Varint.EncodeParses(Total(f), []);
    if k < |e| {
      assert FrameWire(f)[..k] == e[..k];
      PartOfVarint(e, k);
      HandleLength(s, saved, c, e[..k]);
    } else {
      var part := f.pts[..k - |e|];
      assert FrameWire(f)[..k] == e + part;
      PartOfVarint(f.pts, k - |e|);
      OpenFrame(s, saved, c, Total(f), part);
    }
  }

  lemma CutInPayload(s: Stream, saved: nat, c: Config, f: Timed, k: nat)
    requires Between(s) && Sendable(f)
    requires |Varint.Encode(Total(f))| + |f.pts| <= k < |FrameWire(f)|
    ensures Handle(s, saved, c, FrameWire(f)[..k]).clean
  {
    hide Varint.Encode, Varint.Parse, Varint.Value, Handle, Receive;
    var e := Varint.Encode(Total(f));
    var part := f.payload[..k - |e| - |f.pts|];
    assert FrameWire(f)[..k] == e + (f.pts + part);
    OpenFrame(s, saved, c, Total(f), f.pts + part);
    Varint.VarintParses(f.pts, part);
    assert (f.pts + part)[|f.pts|..] == part;
    ReceiveShort(Stream(true, true, Total(f), |f.pts|, []), saved, c, part);
  }

  /** A prefix of the frames is a clean chunk exactly when it does not end there. */
  lemma {:induction false} CutIsClean(s: Stream, saved: nat, c: Config, frames: seq<Timed>, k: nat)
    requires Between(s) && AllSendable(frames) && k <= |Wire(frames)| && !Reached(c, saved + |frames|)
    ensures Handle(s, saved, c, Wire(frames)[..k]).clean <==> !InsideVarints(frames, k)
    decreases |frames|
  {
    hide Varint.Encode, Handle, FrameWire;
    var cut := Wire(frames)[..k];
    if k == 0 {
      assert cut == [];
      HandleNothing(s, saved, c);
    } else {
      var f := frames[0];
      var l := |Varint.Encode(Total(f))| + |f.pts|;
      WireLength(f);
      if k < |FrameWire(f)| {
        assert cut == FrameWire(f)[..k];
        if k < l { CutInVarints(s, saved, c, f, k); } else { CutInPayload(s, saved, c, f, k); }
      } else {
        var tail := Wire(frames[1..])[..k - |FrameWire(f)|];
        assert cut == FrameWire(f) + tail;
        TakeFrame(s, saved, c, f, tail);
        CutIsClean(READY, saved + 1, c, frames[1..], k - |FrameWire(f)|);
      }
    }
  }

  lemma WireLength(f: Timed)
    ensures |FrameWire(f)| == |Varint.Encode(Total(f))| + |f.pts| + |f.payload|
  {
  }

  // ---------------------------------------------------------- whole streams

  /** The octets of a stream: the header with the session, then the frames. */
  function StreamWire(session: nat, frames: seq<Timed>): Bytes {
    StreamHeader(session) + Wire(frames)
  }

  /** Octet k lies inside two varints that must arrive together. */
  predicate Splits(session: nat, frames: seq<Timed>, k: nat) {
    var h := |StreamHeader(session)|;
    if k < h then k > 0 else InsideVarints(frames, k - h)
  }

  lemma HeaderParses(session: nat, rest: Bytes)
    requires session < Varint.LIMIT
    ensures ReadHeader(StreamHeader(session) + rest) == Header(WT_STREAM, session, |StreamHeader(session)|)
  {
    hide Varint.Encode, Varint.Parse;
    var t, i := Varint.Encode(WT_STREAM), Varint.Encode(session);
    assert StreamHeader(session) + rest == t + (i + rest);
    Varint.EncodeParses(WT_STREAM, i + rest);
    Varint.EncodeParses(session, rest);
    assert (StreamHeader(session) + rest)[|t|..] == i + rest;
  }

  lemma PartOfHeader(session: nat, k: nat)
    requires session < Varint.LIMIT && k < |StreamHeader(session)|
    ensures ReadHeader(StreamHeader(session)[..k]).Missing?
  {
    hide Varint.Encode, Varint.Parse, Varint.Value;
    var t, i := Varint.Encode(WT_STREAM), Varint.Encode(session);
    Varint.EncodeParses(WT_STREAM, []);
    Varint.EncodeParses(session, []);
    if k < |t| {
      assert StreamHeader(session)[..k] == t[..k];
      PartOfVarint(t, k);
    } else {
      assert StreamHeader(session)[..k] == t + i[..k - |t|];
      Varint.VarintParses(t, i[..k - |t|]);
      assert (t + i[..k - |t|])[|t|..] == i[..k - |t|];
      PartOfVarint(i, k - |t|);
    }
  }

  lemma StreamCutIsClean(c: Config, frames: seq<Timed>, k: nat)
    requires c.session < Varint.LIMIT && AllSendable(frames) && !Reached(c, |frames|)
    requires k <= |StreamWire(c.session, frames)|
    ensures Handle(NEW, 0, c, StreamWire(c.session, frames)[..k]).clean <==> !Splits(c.session, frames, k)
  {
    hide Handle, Wire, StreamHeader, ReadHeader, InsideVarints;
    var h := StreamHeader(c.session);
    var cut := StreamWire(c.session, frames)[..k];
    if k == 0 {
      assert cut == [];
      HandleNothing(NEW, 0, c);
      SomeHeader(c.session);
    } else if k < |h| {
      assert cut == h[..k];
      PartOfHeader(c.session, k);
      HandleHeader(0, c, cut);
    } else {
      var part := Wire(frames)[..k - |h|];
      assert cut == h + part;
      HeaderParses(c.session, part);
      HandleHeader(0, c, cut);
      assert cut[|h|..] == part;
      CutIsClean(OPEN, 0, c, frames, k - |h|);
    }
  }

  lemma SomeHeader(session: nat)
    ensures |StreamHeader(session)| > 0
  {
  }

  /** The first chunks taken as one string are clean. */
  predicate CleanAt(s: Stream, saved: nat, c: Config, chunks: seq<Bytes>, i: nat)
    requires Valid(s, saved, c) && i <= |chunks|
  {
    Handle(s, saved, c, Join(chunks[..i])).clean
  }

  /** All chunks are clean exactly when the string is clean up to every boundary, and
      then the chunks act like their concatenation. */
  lemma {:induction false} CleanEverywhere(s: Stream, saved: nat, c: Config, chunks: seq<Bytes>)
    requires Valid(s, saved, c)
    ensures HandleAll(s, saved, c, chunks).clean <==> forall i | 0 <= i <= |chunks| :: CleanAt(s, saved, c, chunks, i)
    ensures HandleAll(s, saved, c, chunks).clean ==> HandleAll(s, saved, c, chunks) == Handle(s, saved, c, Join(chunks))
    decreases |chunks|
  {
    hide Handle, Valid;
    HandleNothing(s, saved, c);
    assert chunks[..0] == [];
    if chunks != [] {
      var o, rest := Handle(s, saved, c, chunks[0]), chunks[1..];
      assert chunks[..1][1..] == [] && Join(chunks[..1]) == chunks[0];
      assert CleanAt(s, saved, c, chunks, 1) <==> o.clean;
      if o.clean {
        var t, n := o.next, saved + |o.frames|;
        CleanEverywhere(t, n, c, rest);
        HandleAppend(s, saved, c, chunks[0], Join(rest));
        forall i | 0 <= i <= |rest| ensures CleanAt(t, n, c, rest, i) <==> CleanAt(s, saved, c, chunks, i + 1) {
          assert chunks[..i + 1][1..] == rest[..i];
          HandleAppend(s, saved, c, chunks[0], Join(rest[..i]));
        }
        assert forall i | 0 < i <= |chunks| :: CleanAt(t, n, c, rest, i - 1) <==> CleanAt(s, saved, c, chunks, i);
      }
    }
  }

  /** A stream with the client's session, cut into chunks: every octet is used as it was
      meant exactly when no chunk ends inside two varints that belong together; and then
      the payloads are saved, all of them, in order, and nothing else. */
  lemma RebuiltWhenVarintsArriveTogether(c: Config, frames: seq<Timed>, chunks: seq<Bytes>)
    requires c.session < Varint.LIMIT && AllSendable(frames) && !Reached(c, |frames|)
    requires Join(chunks) == StreamWire(c.session, frames)
    ensures var o := HandleAll(NEW, 0, c, chunks);
            && (o.clean <==> forall i | 0 <= i <= |chunks| :: !Splits(c.session, frames, |Join(chunks[..i])|))
            && (o.clean ==>
                  o == Outcome(if frames == [] then OPEN else READY, Payloads(frames), 0, false, true))
  {
    hide Handle, HandleAll, Splits, Join, Wire, StreamHeader, ReadHeader;
    forall i | 0 <= i <= |chunks|
      ensures CleanAt(NEW, 0, c, chunks, i) <==> !Splits(c.session, frames, |Join(chunks[..i])|) {
      JoinPrefix(chunks, i);
      StreamCutIsClean(c, frames, |Join(chunks[..i])|);
    }
    CleanEverywhere(NEW, 0, c, chunks);
    var h := StreamHeader(c.session);
    SomeHeader(c.session);
    HeaderParses(c.session, Wire(frames));
    HandleHeader(0, c, h + Wire(frames));
    assert (h + Wire(frames))[|h|..] == Wire(frames);
    TakeWire(OPEN, 0, c, frames);
    var o := HandleAll(NEW, 0, c, chunks);
    if o.clean {
      assert forall i | 0 <= i <= |chunks| :: CleanAt(NEW, 0, c, chunks, i);
    } else {
      var i :| 0 <= i <= |chunks| && !CleanAt(NEW, 0, c, chunks, i);
    }
  }

  // ------------------------------------------- nothing before the session

  /** The chunk starts with the stream type and the session of the client. */
  predicate Opens(c: Config, chunk: Bytes) {
    var h := ReadHeader(chunk);
    h.Header? && h.streamType == 0x54 && h.session == c.session
  }

  /** Until a chunk starts with the right header nothing is saved and nothing is kept. */
  lemma {:induction false} NothingBeforeTheSession(saved: nat, c: Config, chunks: seq<Bytes>)
    requires forall k | 0 <= k < |chunks| :: !Opens(c, chunks[k])
    ensures HandleAll(NEW, saved, c, chunks).frames == [] && HandleAll(NEW, saved, c, chunks).next == NEW
    decreases |chunks|
  {
    hide Handle, ReadHeader;
    if chunks != [] {
      if chunks[0] == [] { HandleNothing(NEW, saved, c); } else { HandleHeader(saved, c, chunks[0]); }
      NothingBeforeTheSession(saved, c, chunks[1..]);
    }
  }

  /** A first chunk with the header of another type or session is an error and leaves nothing. */
  lemma ForeignHeader(saved: nat, c: Config, t: Bytes, i: Bytes, rest: Bytes)
    requires Varint.IsVarint(t) && Varint.IsVarint(i)
    requires Varint.Value(t) != 0x54 || Varint.Value(i) != c.session
    ensures Handle(NEW, saved, c, t + (i + rest)) == Outcome(NEW, [], -1, false, false)
  {
    hide Varint.Parse, Varint.Value, Handle;
    var chunk := t + (i + rest);
    Varint.VarintParses(t, i + rest);
    Varint.VarintParses(i, rest);
    assert chunk[|t|..] == i + rest;
    HandleHeader(saved, c, chunk);
  }

  // -------------------------------------------------- pictures without lengths

  /** The chunk starts with a varint that is no length of a frame, as a picture does. */
  predicate StartsWithoutLength(chunk: Bytes) {
    var p := Varint.Parse(chunk);
    p.Complete? && (p.value == 0 || p.value > 0x200_0000)
  }

  /** One chunk in the search for pictures. */
  lemma SearchChunk(s: Stream, saved: nat, c: Config, chunk: Bytes)
    requires Valid(s, saved, c) && s.headerOk && !s.framing && chunk != []
    requires s.curLen == 0 ==> StartsWithoutLength(chunk)
    ensures Handle(s, saved, c, chunk) == Search(s, saved, c, chunk)
  {
    HandleOpen(s, saved, c, chunk);
    hide Handle, Search, Receive, Varint.Parse;
  }

  /** Without lengths, or after a length that left no payload: if no chunk starts with what
      could be a length, the frames saved are the pictures of the whole stream, in order,
      however it is cut. */
  lemma {:induction false} PicturesWithoutLengths(s: Stream, saved: nat, c: Config, chunks: seq<Bytes>)
    requires Valid(s, saved, c) && s.headerOk && !s.framing && chunks != []
    requires forall k | 0 <= k < |chunks| :: chunks[k] != [] && (s.curLen == 0 ==> StartsWithoutLength(chunks[k]))
    ensures var o, x := HandleAll(s, saved, c, chunks), Jpeg.Extract(s.got + Join(chunks));
            && o.frames == x.frames && o.next == s.(got := x.residue) && o.ret == 0
            && o.stopped == (c.maxFrames > 0 && saved + |x.frames| >= c.maxFrames)
    decreases |chunks|
  {
    hide Handle, StartsWithoutLength, Jpeg.Extract;
    SearchChunk(s, saved, c, chunks[0]);
    var o, rest := Handle(s, saved, c, chunks[0]), chunks[1..];
    var x := Jpeg.Extract(s.got + chunks[0]);
    if rest == [] {
      assert s.got + Join(chunks) == s.got + chunks[0];
      assert o.frames + [] == x.frames;
    } else {
      Jpeg.ExtractAppend(s.got + chunks[0], Join(rest));
      assert s.got + Join(chunks) == s.got + chunks[0] + Join(rest);
      assert forall k | 0 <= k < |rest| :: rest[k] == chunks[k + 1];
      PicturesWithoutLengths(o.next, saved + |o.frames|, c, rest);
    }
  }

  /** A length that its own time stamp uses up: the octets behind the stamp are searched for pictures,
      now and, by PicturesWithoutLengths, from then on. */
  lemma UsedUpLength(s: Stream, saved: nat, c: Config, length: nat, pts: Bytes, rest: Bytes)
    requires Between(s) && Varint.IsVarint(pts) && 0 < length <= |pts| && rest != []
    ensures var o, x := Handle(s, saved, c, Varint.Encode(length) + (pts + rest)), Jpeg.Extract(rest);
            && o.frames == x.frames && o.ret == 0
            && o.next == Stream(true, false, length, |pts|, x.residue)
            && o.stopped == (c.maxFrames > 0 && saved + |x.frames| >= c.maxFrames)
  {
    hide Varint.Encode, Varint.Parse, Varint.Value, Handle, Receive, Jpeg.Extract;
    OpenFrame(s, saved, c, length, pts + rest);
    Varint.VarintParses(pts, rest);
    assert (pts + rest)[|pts|..] == rest;
    var open := Stream(true, true, length, |pts|, []);
    ReceiveNone(open, saved, c, rest);
    SearchChunk(open.(framing := false), saved, c, rest);
    assert [] + rest == rest;
  }

  // ------------------------------------------------------- behind the limit

  /** The last frame that was wanted is saved, the client is told to stop, and the octets behind the
      frame are left. */
  lemma LastFrameStops(s: Stream, saved: nat, c: Config, f: Timed, rest: Bytes)
    requires Between(s) && Sendable(f) && 0 < c.maxFrames <= saved + 1
    ensures Handle(s, saved, c, FrameWire(f) + rest)
         == Outcome(Stream(true, true, Total(f), |f.pts|, f.payload), [f.payload], 0, true, false)
  {
    hide Varint.Encode, Varint.Parse, Handle, Receive;
    var tail := f.pts + (f.payload + rest);
    assert FrameWire(f) + rest == Varint.Encode(Total(f)) + tail;
    OpenFrame(s, saved, c, Total(f), tail);
    Varint.VarintParses(f.pts, f.payload + rest);
    assert tail[|f.pts|..] == f.payload + rest;
    var open := Stream(true, true, Total(f), |f.pts|, []);
    ReceiveFull(open, saved, c, f.payload + rest);
    assert [] + (f.payload + rest)[..|f.payload|] == f.payload;
  }

  /** After the last frame that was wanted the stream is left complete: any later chunk
      saves that frame once more. */
  lemma LastFrameIsSavedAgain(s: Stream, saved: nat, c: Config, bytes: Bytes)
    requires Valid(s, saved, c) && s.headerOk && s.framing && |s.got| == Need(s) > 0 && bytes != []
    ensures Handle(s, saved, c, bytes) == Outcome(s, [s.got], 0, true, false)
  {
    hide Handle, Receive;
    HandleFraming(s, saved, c, bytes);
    ReceiveFull(s, saved, c, bytes);
    assert s.got + bytes[..0] == s.got;
  }
}
