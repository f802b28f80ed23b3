/** The chunk-driven data-stream parser and the loop that drives it. Each call may
    stop anywhere; together the calls compute DataStream.Feed. */
module DataStreamParser {
  import opened Bytes
  import opened DataStream
  import Varint
  import Writer
  import Qpack
  import QpackParser

  /** From `before`, the octets from start on lead to the n octets of DATA at pos
      and then to `after` and the octets behind them. */
  ghost predicate Continues(before: State, bytes: Bytes, start: nat, pos: nat, n: nat, after: State) {
    && start <= pos <= pos + n <= |bytes|
    && Feed(before, bytes[start..]) == Prepend(bytes[pos..pos + n], Feed(after, bytes[pos + n..]))
  }

  ghost predicate Stops(before: State, bytes: Bytes, start: nat, errorFound: nat) {
    start <= |bytes| && Feed(before, bytes[start..]) == Stop(errorFound, [])
  }

  /** Feeding the octets ends in `after` having delivered the data. */
  ghost predicate Ran(before: State, bytes: Bytes, after: State, delivered: Bytes) {
    Feed(before, bytes) == Run(after, delivered)
  }

  ghost predicate Stopped(before: State, bytes: Bytes, errorFound: nat, delivered: Bytes) {
    Feed(before, bytes) == Stop(errorFound, delivered)
  }

  class StreamState {
    const frameHeader: array<Byte>
    var frameHeaderRead: nat
    var frameHeaderParsed: bool
    var currentFrame: array?<Byte>
    var currentFrameType: nat
    var currentFrameLength: nat
    var currentFrameRead: nat
    var controlStreamId: nat
    var headerFound: bool
    var dataFound: bool
    var trailerFound: bool
    var isWebTransport: bool
    var header: Qpack.Parts
    var trailer: Qpack.Parts
    ghost var Repr: set<object>

    /** The buffers hold what they should; octets behind the read counters are stale. */
    ghost predicate Shape()
      reads this, Repr
    {
      && this in Repr && frameHeader in Repr && frameHeader.Length == 16 && frameHeaderRead <= 16
      && (currentFrame != null ==>
            currentFrame in Repr && currentFrame != frameHeader
            && currentFrameRead <= currentFrame.Length == currentFrameLength)
    }

    /** The live part of the header buffer. */
    ghost function Header(): Bytes
      requires frameHeaderRead <= frameHeader.Length
      reads this, frameHeader
    {
      frameHeader[..frameHeaderRead]
    }

    ghost function Live(): State
      requires Shape()
      reads this, Repr
    {
      State(Header(), frameHeaderParsed, currentFrameType, currentFrameLength,
            currentFrameRead, if currentFrame == null then None else Some(currentFrame[..currentFrameRead]),
            headerFound, dataFound, trailerFound, isWebTransport, controlStreamId, header, trailer)
    }

    ghost predicate Valid()
      reads this, Repr
      ensures Valid() ==> Shape()
    {
      Shape() && Wf(Live())
    }

    constructor ()
      ensures Valid() && fresh(Repr) && Live() == INITIAL
    {
      frameHeader := new Byte[16];
      currentFrame := null;
      frameHeaderRead, currentFrameType, currentFrameLength, currentFrameRead := 0, 0, 0, 0;
      frameHeaderParsed, headerFound, dataFound, trailerFound, isWebTransport := false, false, false, false, false;
      controlStreamId := UINT64_MAX;
      header, trailer := Qpack.NO_PARTS, Qpack.NO_PARTS;
      new;
      Repr := {this, frameHeader};
    }

    /** One octet of the frame header. */
    method PushHeader(b: Byte)
      requires Shape() && frameHeaderRead < 16
      modifies frameHeader, `frameHeaderRead
      ensures Shape() && Live() == old(Live()).(hdr := old(Live()).hdr + [b])
    {
      frameHeader[frameHeaderRead] := b;
      frameHeaderRead := frameHeaderRead + 1;
      assert frameHeader[..frameHeaderRead] == old(frameHeader[..frameHeaderRead]) + [b];
      assert currentFrame != null ==> currentFrame[..] == old(currentFrame[..]);
    }

    /** The length of a frame whose header is complete. */
    method DecodeLength(typeLength: nat, headerLength: nat)
      requires Shape() && HeaderRead(Live().hdr) && currentFrame == null
      requires typeLength == Varint.Length(Header()[0])
      requires headerLength == typeLength + Varint.Length(Header()[typeLength])
      modifies `currentFrameLength
      ensures Shape() && Live() == old(Live()).(length := LengthOf(old(Live()).hdr))
    {
      ghost var hdr := Header();
      var octets := frameHeader[..frameHeaderRead][typeLength..headerLength];
      assert LengthOf(hdr) == Varint.Value(octets) && octets[..headerLength - typeLength] == octets;
      hide Varint.Value, HeaderRead, LengthOf;
      var used;
      used, currentFrameLength := Varint.Decode(octets, headerLength - typeLength);
    }

    /** The check of a complete frame header. */
    method AcceptFrame() returns (ok: bool, errorFound: nat)
      requires Shape() && HeaderRead(Live().hdr) && Live().length == LengthOf(Live().hdr)
      requires currentFrame == null && !frameHeaderParsed && !isWebTransport
      modifies `frameHeaderParsed, `currentFrameLength, `currentFrameRead
      modifies `headerFound, `isWebTransport, `controlStreamId
      ensures ok ==> Shape() && Classify(old(Live())) == Run(Live(), [])
      ensures !ok ==> Classify(old(Live())) == Stop(errorFound, [])
    {
      hide LengthOf, HeaderRead, Wf;
      ok, errorFound := true, 0;
      currentFrameRead := 0;
      frameHeaderParsed := true;
      if currentFrameType == DATA {
        if !headerFound || trailerFound || isWebTransport {
          return false, FRAME_UNEXPECTED;
        }
      } else if currentFrameType == HEADERS {
        if headerFound && (!dataFound || trailerFound || isWebTransport) {
          return false, FRAME_UNEXPECTED;
        } else if currentFrameLength > MAX_HEADERS {
          return false, INTERNAL_ERROR;
        }
      } else if currentFrameType == WEBTRANSPORT_STREAM {
        if headerFound {
          return false, FRAME_UNEXPECTED;
        } else {
          headerFound := true;
          isWebTransport := true;
          controlStreamId := currentFrameLength;
          currentFrameLength := 0;
          frameHeaderParsed := true;
        }
      } else if currentFrameType == CANCEL_PUSH || currentFrameType == GOAWAY || currentFrameType == MAX_PUSH_ID {
        return false, GENERAL_PROTOCOL_ERROR;
      } else if currentFrameType == SETTINGS {
        return false, FRAME_UNEXPECTED;
      }
    }

    /** The header read so far extends the one at the start of the call by the octets taken. */
    ghost predicate Accumulating(bytes: Bytes, start: nat, p: nat, base: State, goal: Outcome)
      reads this, Repr
    {
      && Shape() && start <= p <= |bytes| && !base.parsed
      && Header() == base.hdr + bytes[start..p]
      && Live() == base.(hdr := Header(), ftype := currentFrameType)
      && goal == Resume(Live(), bytes[p..])
    }

    /** The type is complete and decoded. */
    ghost predicate TypeKnown(n: nat)
      reads this, frameHeader
    {
      && 1 <= n <= frameHeaderRead <= frameHeader.Length && n == Varint.Length(frameHeader[0]) && TypeRead(Header())
      && currentFrameType == TypeOf(Header())
    }

    method PushNext(bytes: Bytes, start: nat, p: nat, ghost base: State, ghost goal: Outcome) returns (q: nat)
      requires Accumulating(bytes, start, p, base, goal) && p < |bytes| && frameHeaderRead < 16 && !HeaderRead(Header())
      modifies frameHeader, `frameHeaderRead
      ensures Accumulating(bytes, start, q, base, goal) && q == p + 1
      ensures frameHeaderRead == old(frameHeaderRead) + 1 <= 16
      ensures Header() == old(Header()) + [bytes[p]]
    {
      ResumeStep(Live(), bytes[p..]);
      assert bytes[p..][1..] == bytes[p + 1..];
      assert bytes[start..p] + [bytes[p]] == bytes[start..p + 1];
      hide Resume, HeaderRead;
      PushHeader(bytes[p]);
      q := p + 1;
    }

    method DecodeType(bytes: Bytes, start: nat, p: nat, n: nat, ghost base: State, ghost goal: Outcome)
      requires Accumulating(bytes, start, p, base, goal) && 1 <= n <= frameHeaderRead
      requires n == Varint.Length(frameHeader[0])
      modifies `currentFrameType
      ensures Accumulating(bytes, start, p, base, goal) && TypeKnown(n) && Header() == old(Header())
    {
      hide Varint.Value, Resume;
      ghost var live := Live();
      var octets := frameHeader[..n];
      assert octets == live.hdr[..n] && octets[..n] == octets;
      ResumeTyped(live, bytes[p..]);
      var used;
      used, currentFrameType := Varint.Decode(octets, n);
    }

    /** The length after a complete type. The octet behind the type may be a stale
        one; then nothing is left of the chunk. */
    method ReadLength(bytes: Bytes, start: nat, from: nat, n: nat, ghost base: State, ghost goal: Outcome)
      returns (p: nat, frameHeaderLength: nat)
      requires Accumulating(bytes, start, from, base, goal) && TypeKnown(n) && !HeaderRead(Header())
      requires frameHeader.Length == 16 && from <= |bytes|
      modifies frameHeader, `frameHeaderRead
      ensures Accumulating(bytes, start, p, base, goal) && TypeKnown(n)
      ensures frameHeaderRead >= frameHeaderLength <==> HeaderRead(Header())
      ensures HeaderRead(Header()) ==> frameHeaderLength == n + Varint.Length(Header()[n])
      ensures !HeaderRead(Header()) ==> p == |bytes|
    {
      hide Resume, TypeOf, Accumulating;
      p := from;
      while frameHeaderRead < n + 1 && p < |bytes|
        invariant Accumulating(bytes, start, p, base, goal) && p <= |bytes| && TypeKnown(n)
        invariant frameHeaderRead <= n + 1 || !HeaderRead(Header())
        decreases |bytes| - p
      {
        TypeStays(Header(), bytes[p]);
        p := PushNext(bytes, start, p, base, goal);
      }
      frameHeaderLength := Varint.Length(frameHeader[n]) + n;
      while frameHeaderRead < frameHeaderLength && p < |bytes|
        invariant Accumulating(bytes, start, p, base, goal) && p <= |bytes| && TypeKnown(n)
        invariant p == |bytes| || frameHeaderRead > n
        invariant n < frameHeaderRead ==>
                    frameHeaderRead <= frameHeaderLength && frameHeaderLength == Varint.Length(Header()[n]) + n
        decreases |bytes| - p
      {
        TypeStays(Header(), bytes[p]);
        p := PushNext(bytes, start, p, base, goal);
      }
    }

    /** The type octets of a frame header. */
    method ReadType(bytes: Bytes, start: nat, ghost base: State, ghost goal: Outcome) returns (p: nat, n: nat)
      requires Accumulating(bytes, start, start, base, goal) && start < |bytes| && !HeaderRead(Header())
      requires frameHeaderRead <= frameHeader.Length == 16
      modifies frameHeader, `frameHeaderRead
      ensures Accumulating(bytes, start, p, base, goal) && !HeaderRead(Header()) && frameHeaderRead <= 16
      ensures 1 <= frameHeaderRead && n == Varint.Length(frameHeader[0])
      ensures frameHeaderRead < n ==> p == |bytes|
    {
      hide Resume, TypeOf, Accumulating;
      p := start;
      if frameHeaderRead < 1 {
        p := PushNext(bytes, start, p, base, goal);
      }
      n := Varint.Length(frameHeader[0]);
      while frameHeaderRead < n && p < |bytes|
        invariant Accumulating(bytes, start, p, base, goal) && p <= |bytes| && 1 <= frameHeaderRead <= 16
        invariant n == Varint.Length(frameHeader[0]) && !HeaderRead(Header())
        decreases |bytes| - p
      {
        p := PushNext(bytes, start, p, base, goal);
      }
    }

    /** A complete header is decoded and checked; the parser then stands before the payload. */
    method CompleteHeader(bytes: Bytes, start: nat, p: nat, n: nat, headerLength: nat, ghost base: State,
                          ghost goal: Outcome)
      returns (next: Cursor, errorFound: nat)
      requires Accumulating(bytes, start, p, base, goal) && HeaderRead(Header()) && TypeKnown(n)
      requires headerLength == n + Varint.Length(Header()[n]) && Wf(base)
      modifies this
      ensures Repr == old(Repr)
      ensures next.At? ==> next == At(p) && Valid() && goal == Feed(Live(), bytes[p..])
      ensures next.Null? ==> goal == Stop(errorFound, [])
    {
      hide Resume, Refresh, Classify, Feed, TypeOf, LengthOf;
      ResumeAccept(Live(), bytes[p..]);
      ClassifyKeepsWf(Live());
      DecodeLength(n, headerLength);
      var ok;
      ok, errorFound := AcceptFrame();
      next := if ok then At(p) else Null;
      if ok { PrependNothing(Feed(Live(), bytes[p..])); }
    }

    /** The branch that accumulates a frame header. */
    method ReadFrameHeader(bytes: Bytes, start: nat) returns (next: Cursor, errorFound: nat)
      requires Valid() && !frameHeaderParsed && start < |bytes|
      modifies Repr
      ensures Repr == old(Repr)
      ensures next.At? ==>
                Valid() && start < next.pos <= |bytes|
                && Feed(old(Live()), bytes[start..]) == Feed(Live(), bytes[next.pos..])
      ensures next.Null? ==> Feed(old(Live()), bytes[start..]) == Stop(errorFound, [])
    {
      hide Resume, Refresh, Classify, Feed, TypeOf, LengthOf;
      errorFound := 0;
      ghost var goal := Feed(Live(), bytes[start..]);
      ghost var base := Live();
      ResumeStart(base, bytes[start..]);
      var p, frameTypeLength := ReadType(bytes, start, base, goal);
      next := At(p);
      if frameHeaderRead < frameTypeLength {
        ResumeEnd(Live(), bytes[p..]);
        return;
      }
      DecodeType(bytes, start, p, frameTypeLength, base, goal);
      var frameHeaderLength;
      p, frameHeaderLength := ReadLength(bytes, start, p, frameTypeLength, base, goal);
      next := At(p);
      if frameHeaderRead >= frameHeaderLength {
        next, errorFound := CompleteHeader(bytes, start, p, frameTypeLength, frameHeaderLength, base, goal);
      } else {
        ResumeEnd(Live(), bytes[p..]);
      }
    }

    /** malloc on the first octets of a HEADERS frame, then memcpy behind what is there. */
    method LoadHeaders(bs: Bytes)
      requires Valid() && frameHeaderParsed && currentFrameType == HEADERS
      requires currentFrameRead + |bs| <= currentFrameLength
      modifies Repr
      ensures Shape() && Live() == Absorb(old(Live()), bs) && currentFrame != null
      ensures fresh(Repr - old(Repr))
    {
      hide HeaderRead, Qpack.ParseBlock;
      if currentFrame == null {
        currentFrame := new Byte[currentFrameLength];
        Repr := Repr + {currentFrame};
      }
      var at := currentFrameRead;
      ghost var before := currentFrame[..at];
      assert before == Content(old(Live()));
      Writer.CopyIn(currentFrame, at, bs);
      currentFrameRead := currentFrameRead + |bs|;
      assert currentFrame[..currentFrameRead] == before + bs;
    }

    /** A HEADERS frame is complete: the first one is the header, a later one the trailer. */
    method FinishHeaders(ghost goal: Outcome) returns (ok: bool, errorFound: nat)
      requires Shape() && currentFrame != null && currentFrameType == HEADERS && currentFrameRead == currentFrameLength
      requires goal == Finish(Live())
      modifies this
      ensures Repr == old(Repr)
      ensures ok ==> Shape() && goal == Run(Live(), [])
      ensures !ok ==> goal == Stop(errorFound, [])
    {
      hide Qpack.ParseBlock, HeaderRead, Finish;
      ghost var live := Live();
      FinishedHeaders(live);
      var parsed, parts, beyond := QpackParser.ParseHeaderFrame(currentFrame[..currentFrameLength]);
      assert currentFrame[..currentFrameLength] == Content(live);
      ok, errorFound := true, 0;
      if parsed.Null? || parsed.pos != currentFrameLength {
        ok, errorFound := false, if beyond then UNDEFINED else FRAME_ERROR;
      }
      StoreParts(parts);
    }

    /** The parts become the header or the trailer; the parser goes back to reading a header. */
    method StoreParts(parts: Qpack.Parts)
      requires Shape()
      modifies this
      ensures Repr == old(Repr) && Shape()
      ensures var s := old(Live());
              var t := s.(parsed := false, hdr := [], frame := None,
                          headerFound := true, trailerFound := s.headerFound);
              Live() == if s.headerFound then t.(trailer := parts) else t.(header := parts)
    {
      var isTrailer := headerFound;
      trailerFound := headerFound;
      headerFound := true;
      if isTrailer {
        trailer := parts;
      } else {
        header := parts;
      }
      frameHeaderParsed := false;
      frameHeaderRead := 0;
      currentFrame := null;
    }

    /** HEADERS payload: store it, parse the block once it is complete. */
    method TakeHeaders(bs: Bytes) returns (ok: bool, errorFound: nat)
      requires Valid() && frameHeaderParsed && !isWebTransport && currentFrameType == HEADERS
      requires currentFrameRead + |bs| <= currentFrameLength
      modifies Repr
      ensures fresh(Repr - old(Repr))
      ensures ok ==> Valid() && FinishIfFull(Absorb(old(Live()), bs)) == Run(Live(), [])
      ensures ok && old(currentFrameRead) + |bs| == old(currentFrameLength) ==> !frameHeaderParsed
      ensures !ok ==> FinishIfFull(Absorb(old(Live()), bs)) == Stop(errorFound, [])
    {
      ok, errorFound := true, 0;
      hide Finish, Qpack.ParseBlock, HeaderRead;
      LoadHeaders(bs);
      FinishKeepsWf(Live());
      if currentFrameRead >= currentFrameLength {
        ok, errorFound := FinishHeaders(Finish(Live()));
      }
    }

    /** DATA and unknown payload is only counted. */
    method CountPayload(available: nat, ghost bs: Bytes)
      requires Valid() && frameHeaderParsed && !isWebTransport && currentFrameType != HEADERS
      requires currentFrameRead + available <= currentFrameLength && |bs| == available
      modifies `currentFrameRead, `frameHeaderParsed, `frameHeaderRead, `dataFound
      ensures Valid() && FinishIfFull(Absorb(old(Live()), bs)) == Run(Live(), [])
      ensures old(currentFrameRead) + available == currentFrameLength ==> !frameHeaderParsed
    {
      hide Qpack.ParseBlock, HeaderRead;
      FinishKeepsWf(Absorb(Live(), bs));
      currentFrameRead := currentFrameRead + available;
      if currentFrameRead >= currentFrameLength {
        frameHeaderParsed := false;
        frameHeaderRead := 0;
        if currentFrameType == DATA {
          dataFound := true;
        }
      }
    }

    /** The payload of a frame, as much of it as the chunk has. */
    method ReadFramePayload(bytes: Bytes, start: nat) returns (next: Cursor, availableData: nat, errorFound: nat)
      requires Valid() && frameHeaderParsed && !isWebTransport && start < |bytes|
      modifies Repr
      ensures fresh(Repr - old(Repr))
      ensures next.At? ==> Valid() && Continues(old(Live()), bytes, start, next.pos, availableData, Live())
      ensures next.Null? ==> Stops(old(Live()), bytes, start, errorFound)
      ensures next.At? ==> next.pos + availableData > start || !frameHeaderParsed
    {
      hide Feed, Finish, FinishIfFull, Qpack.ParseBlock, HeaderRead, Then, Prepend, Absorb;
      next, availableData, errorFound := At(start), 0, 0;
      var available := |bytes| - start;
      ghost var live, rest := Live(), bytes[start..];
      PayloadCall(live, rest);
      if currentFrameRead + available > currentFrameLength {
        available := currentFrameLength - currentFrameRead;
      }
      var bs := bytes[start..start + available];
      ghost var tail := bytes[start + available..];
      assert available == PayloadRoom(live, |rest|) && rest[..available] == bs && rest[available..] == tail;
      ghost var data := Delivered(live, bs);
      assert data == if currentFrameType == DATA then bs else [];
      assert available == 0 ==> currentFrameRead == currentFrameLength;
      assert Feed(live, rest) == Prepend(data, Then(FinishIfFull(Absorb(live, bs)), tail));
      hide Delivered, PayloadRoom, Wf, Shape, Live, Valid;
      if currentFrameType == HEADERS {
        var ok;
        ok, errorFound := TakeHeaders(bs);
        if ok {
          next := At(start + available);
          ThenRun(Live(), tail);
        } else {
          next := Null;
          ThenStop(errorFound, tail);
        }
      } else {
        if currentFrameType == DATA {
          availableData := available;
        } else {
          next := At(start + available);
        }
        CountPayload(available, bs);
        ThenRun(Live(), tail);
      }
      assert next.At? ==> bytes[next.pos..next.pos + availableData] == data;
      assert next.At? ==> bytes[next.pos + availableData..] == tail;
    }

    /** The branch of a parsed header: WebTransport bypasses all framing. */
    method ReadPayload(bytes: Bytes, start: nat) returns (next: Cursor, availableData: nat, errorFound: nat)
      requires Valid() && frameHeaderParsed && start < |bytes|
      modifies Repr
      ensures fresh(Repr - old(Repr))
      ensures next.At? ==> Valid() && Continues(old(Live()), bytes, start, next.pos, availableData, Live())
      ensures next.Null? ==> Stops(old(Live()), bytes, start, errorFound)
      ensures next.At? ==> next.pos + availableData > start || !frameHeaderParsed
    {
      hide Feed, Wf, HeaderRead;
      if isWebTransport {
        next, availableData, errorFound := At(start), |bytes| - start, 0;
        assert bytes[start..|bytes|] == bytes[start..] && bytes[|bytes|..] == [];
        PassThrough(Live(), bytes[start..]);
      } else {
        next, availableData, errorFound := ReadFramePayload(bytes, start);
      }
    }

    /** h3zero_parse_data_stream. Progress: octets are consumed or delivered, or a
        parsed header is dropped, so (octets left, header parsed) always decreases. */
    method ParseDataStream(bytes: Bytes, start: nat) returns (next: Cursor, availableData: nat, errorFound: nat)
      requires Valid()
      modifies Repr
      ensures fresh(Repr - old(Repr))
      ensures start >= |bytes| ==> next == Null && errorFound == INTERNAL_ERROR && Valid() && Live() == old(Live())
      ensures start < |bytes| && next.At? ==>
                Valid() && Continues(old(Live()), bytes, start, next.pos, availableData, Live())
      ensures start < |bytes| && next.Null? ==> Stops(old(Live()), bytes, start, errorFound)
      ensures start < |bytes| && next.At? ==>
                next.pos + availableData > start || (old(frameHeaderParsed) && !frameHeaderParsed)
    {
      hide Feed, Wf, HeaderRead, Live;
      availableData, errorFound := 0, 0;
      if start >= |bytes| {
        return Null, 0, INTERNAL_ERROR;
      }
      if !frameHeaderParsed {
        next, errorFound := ReadFrameHeader(bytes, start);
        if next.At? {
          HeaderContinues(old(Live()), bytes, start, next.pos, Live());
        }
      } else {
        next, availableData, errorFound := ReadPayload(bytes, start);
      }
    }

    /** The loop of the server and client data callbacks over one network chunk. */
    method Drive(bytes: Bytes) returns (closed: bool, errorFound: nat, delivered: Bytes)
      requires Valid()
      modifies Repr
      ensures fresh(Repr - old(Repr))
      ensures !closed ==> Valid() && Ran(old(Live()), bytes, Live(), delivered)
      ensures closed ==> Stopped(old(Live()), bytes, errorFound, delivered)
    {
      hide *;
      closed, errorFound, delivered := false, 0, [];
      var pos := 0;
      ghost var goal := Feed(Live(), bytes);
      PrependNothing(goal);
      assert bytes[0..] == bytes;
      while pos < |bytes|
        invariant Valid() && fresh(Repr - old(Repr)) && pos <= |bytes|
        invariant goal == Prepend(delivered, Feed(Live(), bytes[pos..]))
        decreases |bytes| - pos, frameHeaderParsed
      {
        ghost var before := Live();
        var next, availableData;
        next, availableData, errorFound := ParseDataStream(bytes, pos);
        if next.Null? {
          DriveStops(old(Live()), before, bytes, pos, errorFound, delivered);
          closed := true;
          return;
        }
        DriveContinues(before, bytes, pos, next.pos, availableData, Live(), delivered);
        delivered := delivered + bytes[next.pos..next.pos + availableData];
        pos := next.pos + availableData;
      }
      DriveEnds(old(Live()), Live(), bytes, pos, delivered);
    }

    /** A whole stream, cut into chunks by the network. */
    method DriveAll(chunks: seq<Bytes>) returns (closed: bool, errorFound: nat, delivered: Bytes)
      requires Valid()
      modifies Repr
      ensures !closed ==> Valid() && Ran(old(Live()), Join(chunks), Live(), delivered)
      ensures closed ==> Stopped(old(Live()), Join(chunks), errorFound, delivered)
    {
      hide Feed, Valid, Shape, Live, Qpack.ParseBlock;
      closed, errorFound, delivered := false, 0, [];
      ghost var goal := FeedAll(Live(), chunks);
      ChunkingNeverMatters(Live(), chunks);
      PrependNothing(goal);
      var i := 0;
      assert chunks[0..] == chunks;
      while i < |chunks|
        invariant Valid() && fresh(Repr - old(Repr)) && i <= |chunks|
        invariant goal == Prepend(delivered, FeedAll(Live(), chunks[i..]))
      {
        ghost var before := Live();
        var data;
        closed, errorFound, data := Drive(chunks[i]);
        DriveAllStep(before, chunks, i, delivered);
        delivered := delivered + data;
        if closed {
          return;
        }
        i := i + 1;
      }
      assert delivered + [] == delivered;
    }
  }

  lemma HeaderContinues(before: State, bytes: Bytes, start: nat, pos: nat, after: State)
    requires start <= pos <= |bytes| && Feed(before, bytes[start..]) == Feed(after, bytes[pos..])
    ensures Continues(before, bytes, start, pos, 0, after)
  {
    PrependNothing(Feed(after, bytes[pos..]));
  }

  lemma DriveStops(first: State, before: State, bytes: Bytes, start: nat, errorFound: nat, delivered: Bytes)
    requires Stops(before, bytes, start, errorFound)
    requires Feed(first, bytes) == Prepend(delivered, Feed(before, bytes[start..]))
    ensures Stopped(first, bytes, errorFound, delivered)
  {
    assert delivered + [] == delivered;
  }

  lemma DriveEnds(before: State, s: State, bytes: Bytes, pos: nat, delivered: Bytes)
    requires pos == |bytes| && Feed(before, bytes) == Prepend(delivered, Feed(s, bytes[pos..]))
    ensures Ran(before, bytes, s, delivered)
  {
    assert bytes[pos..] == [] && delivered + [] == delivered;
  }

  lemma DriveContinues(before: State, bytes: Bytes, start: nat, pos: nat, n: nat, after: State, delivered: Bytes)
    requires Continues(before, bytes, start, pos, n, after)
    ensures start <= pos <= pos + n <= |bytes|
    ensures Prepend(delivered, Feed(before, bytes[start..]))
         == Prepend(delivered + bytes[pos..pos + n], Feed(after, bytes[pos + n..]))
  {
    PrependPrepend(delivered, bytes[pos..pos + n], Feed(after, bytes[pos + n..]));
  }

  lemma DriveAllStep(before: State, chunks: seq<Bytes>, i: nat, delivered: Bytes)
    requires i < |chunks|
    ensures Prepend(delivered, FeedAll(before, chunks[i..]))
         == match Feed(before, chunks[i])
            case Stop(e, d) => Stop(e, delivered + d)
            case Run(s, d) => Prepend(delivered + d, FeedAll(s, chunks[i + 1..]))
  {
    hide Feed;
    assert chunks[i..][1..] == chunks[i + 1..];
    var o := Feed(before, chunks[i]);
    if o.Run? { PrependPrepend(delivered, o.data, FeedAll(o.state, chunks[i + 1..])); }
  }

  /** What Finish makes of a HEADERS frame, by the outcome of its block. */
  lemma FinishedHeaders(s: State)
    requires s.ftype == HEADERS
    ensures var b := Qpack.ParseBlock(Content(s));
            && (b.Rejected? ==> Finish(s) == Stop(FRAME_ERROR, []))
            && (b.OffTable? ==> Finish(s) == Stop(UNDEFINED, []))
            && (b.Parsed? ==>
                  var t := s.(parsed := false, hdr := [], frame := None,
                          headerFound := true, trailerFound := s.headerFound);
                  Finish(s)
                  == Run(if s.headerFound then t.(trailer := b.parts) else t.(header := b.parts), []))
  {
    hide Qpack.ParseBlock;
  }

  lemma PassThrough(s: State, bs: Bytes)
    requires s.parsed && s.webTransport
    ensures Feed(s, bs) == Prepend(bs, Feed(s, []))
  {
    FeedWebTransport(s, bs);
    assert bs + [] == bs;
  }

  lemma ThenRun(s: State, bs: Bytes)
    ensures Then(Run(s, []), bs) == Feed(s, bs) && Prepend([], Feed(s, bs)) == Feed(s, bs)
  {
    PrependNothing(Feed(s, bs));
  }

  lemma ThenStop(e: nat, bs: Bytes)
    ensures Prepend([], Then(Stop(e, []), bs)) == Stop(e, [])
  {
  }

  lemma ClassifyKeepsWf(s: State)
    requires HeaderRead(s.hdr) && s.frame.None? && !s.webTransport
    ensures Classify(s).Run? ==> Wf(Classify(s).state)
    ensures Classify(s.(length := LengthOf(s.hdr))) == Classify(s)
  {
  }
}
