/** The chunk-driven parser of unidirectional streams, proved against
    UnidirStream.Feed: varint accumulation, the control stream loop, the dispatch. */
module UnidirParser {
  import opened Bytes
  import opened UnidirStream
  import Varint
  import Writer
  import Settings

  /** What reading a varint from the chunk did: all of it is taken and the varint is
      still incomplete, or the varint is known and acts on the rest. */
  ghost predicate VarintRead(before: State, sessions: set<nat>, bytes: Bytes, start: nat, after: State, p: nat,
                             result: nat) {
    && start <= p <= |bytes|
    && (result == UINT64_MAX ==>
          && p == |bytes| && Inv(after) && after == before.(varint := after.varint)
          && Feed(before, sessions, bytes[start..]) == Run(after, []))
    && (result != UINT64_MAX ==>
          && start < p && result < Varint.LIMIT && after == before.(varint := [])
          && Feed(before, sessions, bytes[start..]) == Then(OnVarint(after, sessions, result), sessions, bytes[p..]))
  }

  /** The octets from start on act like those from p on after the state change. */
  ghost predicate Leads(before: State, sessions: set<nat>, bytes: Bytes, start: nat, after: State, p: nat) {
    && start <= p <= |bytes|
    && Feed(before, sessions, bytes[start..]) == Feed(after, sessions, bytes[p..])
  }

  ghost predicate Refuses(before: State, sessions: set<nat>, bytes: Bytes, start: nat, error: nat,
                          settings: Settings.Settings) {
    && start <= |bytes|
    && Feed(before, sessions, bytes[start..]) == Fail(error, settings, [])
  }

  /** The octets from start on lead to a frame whose payload starts or goes on at p. */
  ghost predicate Enters(before: State, sessions: set<nat>, bytes: Bytes, start: nat, after: State, p: nat) {
    && start <= p <= |bytes|
    && Feed(before, sessions, bytes[start..]) == Then(Content(after), sessions, bytes[p..])
  }

  /** A control frame whose type and length are known, complete or not. */
  predicate Ready(s: State) {
    && s.streamType == TYPE_CONTROL && s.varint == [] && s.ftype < Varint.LIMIT && s.length < Varint.LIMIT
    && s.read <= s.length && (s.read == s.length ==> s.length == 0)
    && (s.frame.None? ==> s.ignored || s.read == 0)
    && (s.frame.Some? ==> !s.ignored && 0 < s.length <= MAX_LOAD && |s.frame.value| == s.read)
    && (s.ftype == FRAME_SETTINGS <==> !s.settings.received) && (s.ftype == FRAME_SETTINGS <==> !s.ignored)
  }

  /** The payload octets between start and p are absorbed, all that the frame takes. */
  ghost predicate Taken(before: State, bytes: Bytes, start: nat, after: State, p: nat) {
    && start <= p <= |bytes| && after == Absorb(before, bytes[start..p]) && after.read <= before.length
    && (p == |bytes| || after.read == before.length)
  }

  lemma TakenFeeds(s: State, sessions: set<nat>, bytes: Bytes, start: nat, after: State, p: nat)
    requires InFrame(s) && s.read < s.length && Taken(s, bytes, start, after, p)
    ensures Feed(s, sessions, bytes[start..])
         == if after.read == s.length then Then(Finish(after), sessions, bytes[p..])
            else Feed(after, sessions, bytes[p..])
    ensures start < |bytes| ==> start < p
  {
    hide Feed, Finish;
    assert bytes[start..] == bytes[start..p] + bytes[p..];
    FeedSome(s, sessions, bytes[start..p], bytes[p..]);
  }

  /** A stored part of a frame, or an empty rest of one, is a frame to go on with. */
  lemma InsideFrame(s: State, sessions: set<nat>, bytes: Bytes, p: nat)
    requires p <= |bytes| && s.streamType == TYPE_CONTROL && s.length != UINT64_MAX && Inv(s)
    ensures Ready(s) && s.read < s.length && Enters(s, sessions, bytes, p, s, p)
  {
    hide Feed, Finish;
    PrependNothing(Feed(s, sessions, bytes[p..]));
  }

  lemma CheckKeepsInv(s: State, ftype: nat)
    requires Inv(s) && s.streamType == TYPE_CONTROL && s.ftype == UINT64_MAX && s.varint == [] && ftype < Varint.LIMIT
    ensures CheckType(s, ftype).Run? ==> Inv(CheckType(s, ftype).state)
  {
  }

  lemma FinishKeepsInv(s: State)
    requires s.streamType == TYPE_CONTROL && s.varint == [] && (s.ignored ==> s.settings.received)
    ensures Finish(s).Run? ==> Inv(Finish(s).state) && Finish(s).state.streamType == TYPE_CONTROL
  {
    hide Settings.DecodeComponents;
  }

  lemma SameReader(s: State, v: Bytes)
    ensures ReadsVarint(s.(varint := v)) == ReadsVarint(s)
  {
  }

  class StreamState {
    const frameHeader: array<Byte>
    var frameHeaderRead: nat
    var streamType: nat
    var currentFrame: array?<Byte>
    var currentFrameType: nat
    var currentFrameLength: nat
    var currentFrameRead: nat
    var isCurrentFrameIgnored: bool
    var controlStreamId: nat
    var settings: Settings.Settings
    ghost var Repr: set<object>

    ghost predicate Shape()
      reads this, Repr
    {
      && this in Repr && frameHeader in Repr && frameHeader.Length == 16 && frameHeaderRead <= 16
      && (currentFrame != null ==>
            currentFrame in Repr && currentFrame != frameHeader
            && currentFrameRead <= currentFrame.Length == currentFrameLength)
    }

    ghost function Live(): State
      requires Shape()
      reads this, Repr
    {
      State(streamType, frameHeader[..frameHeaderRead], currentFrameType, currentFrameLength, currentFrameRead,
            if currentFrame == null then None else Some(currentFrame[..currentFrameRead]),
            isCurrentFrameIgnored, controlStreamId, settings)
    }

    ghost predicate Valid()
      reads this, Repr
      ensures Valid() ==> Shape()
    {
      Shape() && Inv(Live())
    }

    constructor (settings: Settings.Settings)
      ensures Valid() && fresh(Repr) && Live() == Initial(settings)
    {
      frameHeader := new Byte[16];
      frameHeaderRead, currentFrameType, currentFrameLength, currentFrameRead := 0, 0, 0, 0;
      streamType, controlStreamId := UINT64_MAX, UINT64_MAX;
      currentFrame, isCurrentFrameIgnored := null, false;
      this.settings := settings;
      new;
      Repr := {this, frameHeader};
    }

    /** One octet of a varint. */
    method Push(b: Byte)
      requires Shape() && frameHeaderRead < 16
      modifies frameHeader, `frameHeaderRead
      ensures Shape() && Live() == old(Live()).(varint := old(Live()).varint + [b])
      ensures frameHeaderRead == old(frameHeaderRead) + 1
    {
      frameHeader[frameHeaderRead] := b;
      frameHeaderRead := frameHeaderRead + 1;
      assert frameHeader[..frameHeaderRead] == old(frameHeader[..frameHeaderRead]) + [b];
      assert currentFrame != null ==> currentFrame[..] == old(currentFrame[..]);
    }

    /** Part of a varint is read; the rest of the chunk decides. */
    ghost predicate Reading(bytes: Bytes, p: nat, base: State, sessions: set<nat>, goal: Outcome)
      reads this, Repr
    {
      && Shape() && p <= |bytes| && ReadsVarint(base) && Live() == base.(varint := Live().varint)
      && goal == Pending(Live(), sessions, bytes[p..])
    }

    method PushNext(bytes: Bytes, p: nat, ghost base: State, ghost sessions: set<nat>, ghost goal: Outcome)
      returns (q: nat)
      requires Reading(bytes, p, base, sessions, goal) && p < |bytes| && frameHeaderRead < 16
      requires !Varint.IsVarint(frameHeader[..frameHeaderRead])
      modifies frameHeader, `frameHeaderRead
      ensures Reading(bytes, q, base, sessions, goal) && q == p + 1
      ensures frameHeaderRead == old(frameHeaderRead) + 1
      ensures frameHeader[..frameHeaderRead] == old(frameHeader[..frameHeaderRead]) + [bytes[p]]
    {
      PendingStep(Live(), sessions, bytes[p..]);
      assert bytes[p..][1..] == bytes[p + 1..];
      hide Pending, Varint.IsVarint, ReadsVarint;
      Push(bytes[p]);
      q := p + 1;
    }

    /** h3zero_varint_from_stream: UINT64_MAX while the varint is incomplete. */
    method VarintFromStream(bytes: Bytes, start: nat, ghost sessions: set<nat>) returns (p: nat, result: nat)
      requires Valid() && ReadsVarint(Live()) && start <= |bytes|
      modifies frameHeader, `frameHeaderRead
      ensures Shape()
      ensures VarintRead(old(Live()), sessions, bytes, start, Live(), p, result)
    {
      hide Feed, Then, Pending, OnVarint, Varint.Value, ReadsVarint;
      p, result := start, UINT64_MAX;
      ghost var base := Live();
      ghost var goal := Feed(base, sessions, bytes[start..]);
      PendingIsFeed(base, sessions, bytes[start..]);
      if p == |bytes| {
        assert bytes[start..] == [];
        FeedNone(base, sessions);
        return;
      }
      if frameHeaderRead < 1 {
        p := PushNext(bytes, p, base, sessions, goal);
      }
      var length := Varint.Length(frameHeader[0]);
      while p < |bytes| && frameHeaderRead < length
        invariant start <= p <= |bytes| && 1 <= frameHeaderRead <= length == Varint.Length(frameHeader[0])
        invariant Reading(bytes, p, base, sessions, goal)
        invariant start < p || frameHeaderRead < length
        decreases |bytes| - p
      {
        p := PushNext(bytes, p, base, sessions, goal);
      }
      result := FinishVarint(bytes, p, length, base, sessions, goal);
    }

    /** What the octets read amount to: a value when the varint is complete. */
    method FinishVarint(bytes: Bytes, p: nat, length: nat,
                        ghost base: State, ghost sessions: set<nat>, ghost goal: Outcome)
      returns (result: nat)
      requires Reading(bytes, p, base, sessions, goal) && Inv(base) && p <= |bytes|
      requires 1 <= frameHeaderRead <= length == Varint.Length(frameHeader[0]) && frameHeader.Length == 16
      requires p == |bytes| || frameHeaderRead == length
      modifies `frameHeaderRead
      ensures Shape()
      ensures result == UINT64_MAX ==>
                p == |bytes| && Inv(Live()) && Live() == base.(varint := Live().varint) && goal == Run(Live(), [])
      ensures result != UINT64_MAX ==>
                && result < Varint.LIMIT && Live() == base.(varint := [])
                && goal == Then(OnVarint(Live(), sessions, result), sessions, bytes[p..])
    {
      hide Feed, Then, Pending, OnVarint, Varint.Value, ReadsVarint;
      result := UINT64_MAX;
      ghost var octets := frameHeader[..frameHeaderRead];
      SameReader(base, octets);
      assert octets[0] == frameHeader[0];
      if frameHeaderRead >= length {
        Varint.ValueBound(octets);
        PendingDone(base.(varint := octets), sessions, bytes[p..]);
        assert octets[..length] == octets;
        var used;
        used, result := Varint.Decode(frameHeader[..frameHeaderRead], frameHeaderRead);
        frameHeaderRead := 0;
        assert frameHeader[..0] == [];
      } else {
        assert bytes[p..] == [];
        PendingIsFeed(base.(varint := octets), sessions, []);
        FeedNone(base.(varint := octets), sessions);
      }
    }

    /** A frame type on the control stream. */
    method AcceptType() returns (ok: bool, errorFound: nat)
      requires Shape() && currentFrame == null && frameHeaderRead == 0
      modifies `isCurrentFrameIgnored
      ensures Shape()
      ensures ok ==> CheckType(old(Live()), currentFrameType) == Run(Live(), [])
      ensures !ok ==> CheckType(old(Live()), currentFrameType) == Fail(errorFound, settings, [])
    {
      ok, errorFound := true, NO_CODE;
      if settings.received && currentFrameType == FRAME_SETTINGS {
        ok, errorFound := false, FRAME_UNEXPECTED;
      } else if !settings.received && currentFrameType != FRAME_SETTINGS {
        ok, errorFound := false, MISSING_SETTINGS;
      } else if currentFrameType == FRAME_DATA || currentFrameType == FRAME_HEADERS
                || currentFrameType == FRAME_PUSH_PROMISE || currentFrameType == FRAME_WEBTRANSPORT {
        ok, errorFound := false, INTERNAL_ERROR;
      } else if currentFrameType != FRAME_SETTINGS {
        isCurrentFrameIgnored := true;
      }
    }

    /** The type of the next control frame, when the chunk completes it. */
    method ReadFrameType(bytes: Bytes, start: nat, ghost sessions: set<nat>) returns (next: Cursor, errorFound: nat)
      requires Valid() && streamType == TYPE_CONTROL && currentFrameType == UINT64_MAX && start < |bytes|
      modifies this, frameHeader
      ensures Repr == old(Repr) && streamType == TYPE_CONTROL
      ensures next.At? ==> Valid() && start < next.pos && Leads(old(Live()), sessions, bytes, start, Live(), next.pos)
      ensures next.At? && currentFrameType == UINT64_MAX ==> next.pos == |bytes|
      ensures next.At? && currentFrameType != UINT64_MAX ==> currentFrameLength == UINT64_MAX
      ensures next.Null? ==> Refuses(old(Live()), sessions, bytes, start, errorFound, settings)
    {
      hide Feed, Varint.Value;
      errorFound := NO_CODE;
      ghost var before := Live();
      var p;
      p, currentFrameType := VarintFromStream(bytes, start, sessions);
      next := At(p);
      ghost var rest := bytes[p..];
      if currentFrameType == UINT64_MAX {
        assert rest == [];
        FeedNone(Live(), sessions);
        return;
      }
      CheckKeepsInv(before.(varint := []), currentFrameType);
      var ok;
      ok, errorFound := AcceptType();
      if ok {
        PrependNothing(Feed(Live(), sessions, rest));
      } else {
        next := Null;
      }
    }

    /** The length of a control frame, when the chunk completes it. */
    method ReadFrameLength(bytes: Bytes, start: nat, ghost sessions: set<nat>) returns (p: nat)
      requires Valid() && streamType == TYPE_CONTROL && currentFrameType != UINT64_MAX
      requires currentFrameLength == UINT64_MAX
      requires start <= |bytes|
      modifies this, frameHeader
      ensures Repr == old(Repr) && Shape() && start <= p <= |bytes| && streamType == TYPE_CONTROL
      ensures currentFrameLength == UINT64_MAX ==>
                Valid() && p == |bytes| && Leads(old(Live()), sessions, bytes, start, Live(), p)
      ensures currentFrameLength != UINT64_MAX ==>
                start < p && Ready(Live()) && Enters(old(Live()), sessions, bytes, start, Live(), p)
    {
      hide Feed, Varint.Value;
      ghost var before := Live();
      p, currentFrameLength := VarintFromStream(bytes, start, sessions);
      ghost var rest := bytes[p..];
      if currentFrameLength == UINT64_MAX {
        assert rest == [];
        FeedNone(Live(), sessions);
      }
    }

    /** h3zero_load_frame_content */
    method LoadFrame(bytes: Bytes, start: nat) returns (next: Cursor, errorFound: nat)
      requires Shape() && Ready(Live()) && currentFrameRead < currentFrameLength && !isCurrentFrameIgnored
      requires start <= |bytes|
      modifies Repr
      ensures fresh(Repr - old(Repr)) && settings == old(settings)
      ensures next.Null? <==> Content(old(Live())).Fail?
      ensures next.Null? ==> Content(old(Live())) == Fail(errorFound, settings, [])
      ensures next.At? ==> Shape() && Taken(Content(old(Live())).state, bytes, start, Live(), next.pos)
    {
      hide Finish, Settings.DecodeComponents;
      next, errorFound := At(start), NO_CODE;
      ghost var live := Live();
      var available := |bytes| - start;
      if currentFrameLength > MAX_LOAD {
        return Null, INTERNAL_ERROR;
      } else if currentFrame == null {
        currentFrame := new Byte[currentFrameLength];
        Repr := Repr + {currentFrame};
      }
      assert Content(live) == Run(Live(), []);
      if currentFrameRead + available > currentFrameLength {
        available := currentFrameLength - currentFrameRead;
      }
      var at := currentFrameRead;
      ghost var stored := currentFrame[..at];
      Writer.CopyIn(currentFrame, at, bytes[start..start + available]);
      currentFrameRead := currentFrameRead + available;
      assert currentFrame[..currentFrameRead] == stored + bytes[start..start + available];
      next := At(start + available);
    }

    /** h3zero_skip_frame_content */
    method SkipFrame(bytes: Bytes, start: nat) returns (p: nat)
      requires Shape() && Ready(Live()) && currentFrameRead < currentFrameLength && isCurrentFrameIgnored
      requires start <= |bytes|
      modifies `currentFrameRead
      ensures Content(old(Live())) == Run(old(Live()), [])
      ensures Shape() && Taken(old(Live()), bytes, start, Live(), p)
    {
      hide Finish, Settings.DecodeComponents;
      var available := |bytes| - start;
      if currentFrameRead + available > currentFrameLength {
        available := currentFrameLength - currentFrameRead;
      }
      currentFrameRead := currentFrameRead + available;
      p := start + available;
    }

    /** A complete control frame. */
    method FinishFrame() returns (ok: bool, errorFound: nat)
      requires Shape() && currentFrameRead == currentFrameLength
      modifies this
      ensures Repr == old(Repr)
      ensures ok ==> Shape() && Finish(old(Live())) == Run(Live(), [])
      ensures !ok ==> Finish(old(Live())) == Fail(errorFound, settings, [])
    {
      hide Settings.DecodeComponents;
      ok, errorFound := true, NO_CODE;
      if currentFrameType == FRAME_SETTINGS {
        if currentFrame == null {
          ok, errorFound := false, SETTINGS_ERROR;
        } else {
          var decodedLast;
          assert currentFrame[..currentFrameLength] == currentFrame[..currentFrameRead];
          decodedLast, settings := Settings.ComponentsDecode(currentFrame[..currentFrameLength], settings);
          if decodedLast.Null? {
            ok, errorFound := false, SETTINGS_ERROR;
          } else {
            settings := settings.(received := true);
          }
        }
      }
      currentFrameType, currentFrameLength, currentFrameRead := UINT64_MAX, UINT64_MAX, 0;
      currentFrame := null;
    }

    /** The payload of a control frame, as much of it as the chunk has. */
    method ReadContent(bytes: Bytes, start: nat, ghost sessions: set<nat>) returns (next: Cursor, errorFound: nat)
      requires Shape() && Ready(Live()) && start <= |bytes|
      modifies Repr
      ensures fresh(Repr - old(Repr))
      ensures next.At? ==>
                Valid() && streamType == TYPE_CONTROL && start <= next.pos <= |bytes|
                && Then(Content(old(Live())), sessions, bytes[start..]) == Feed(Live(), sessions, bytes[next.pos..])
      ensures next.At? && old(currentFrameRead < currentFrameLength) && start < |bytes| ==> start < next.pos
      ensures next.Null? ==> Then(Content(old(Live())), sessions, bytes[start..]) == Fail(errorFound, settings, [])
    {
      hide Feed, Finish, Settings.DecodeComponents;
      next, errorFound := At(start), NO_CODE;
      ghost var live := Live();
      if currentFrameRead < currentFrameLength {
        if isCurrentFrameIgnored {
          var p := SkipFrame(bytes, start);
          next := At(p);
        } else {
          next, errorFound := LoadFrame(bytes, start);
          if next.Null? {
            return;
          }
        }
        TakenFeeds(Content(live).state, sessions, bytes, start, Live(), next.pos);
      }
      if currentFrameRead >= currentFrameLength {
        var ok;
        FinishKeepsInv(Live());
        ok, errorFound := FinishFrame();
        if !ok {
          next := Null;
        }
      }
    }

    /** One turn of the control stream loop: a type, a length, payload, as far as the chunk goes. */
    method ControlStep(bytes: Bytes, start: nat, ghost sessions: set<nat>) returns (next: Cursor, errorFound: nat)
      requires Valid() && streamType == TYPE_CONTROL && start < |bytes|
      modifies Repr
      ensures fresh(Repr - old(Repr))
      ensures next.At? ==>
                Valid() && streamType == TYPE_CONTROL && start < next.pos
                && Leads(old(Live()), sessions, bytes, start, Live(), next.pos)
      ensures next.Null? ==> Refuses(old(Live()), sessions, bytes, start, errorFound, settings)
    {
      hide Feed, Then, Content, Finish;
      next, errorFound := At(start), NO_CODE;
      ghost var before := Live();
      if currentFrameType == UINT64_MAX {
        next, errorFound := ReadFrameType(bytes, start, sessions);
        if next.Null? || currentFrameType == UINT64_MAX {
          return;
        }
      }
      if currentFrameLength == UINT64_MAX {
        var p := ReadFrameLength(bytes, next.pos, sessions);
        next := At(p);
      } else {
        InsideFrame(Live(), sessions, bytes, start);
      }
      if currentFrameLength != UINT64_MAX {
        next, errorFound := ReadContent(bytes, next.pos, sessions);
      }
    }

    /** h3zero_parse_control_stream */
    method ParseControlStream(bytes: Bytes, start: nat, ghost sessions: set<nat>)
      returns (next: Cursor, errorFound: nat)
      requires Valid() && streamType == TYPE_CONTROL && start <= |bytes|
      modifies Repr
      ensures fresh(Repr - old(Repr))
      ensures next.At? ==> Valid() && next.pos == |bytes|
      ensures next.At? ==> Leads(old(Live()), sessions, bytes, start, Live(), next.pos)
      ensures next.Null? ==> Refuses(old(Live()), sessions, bytes, start, errorFound, settings)
    {
      hide Feed, Inv;
      next, errorFound := At(start), NO_CODE;
      while next.At? && next.pos < |bytes|
        invariant fresh(Repr - old(Repr))
        invariant next.At? ==>
                    && Valid() && streamType == TYPE_CONTROL
                    && Leads(old(Live()), sessions, bytes, start, Live(), next.pos)
        invariant next.Null? ==> Refuses(old(Live()), sessions, bytes, start, errorFound, settings)
        decreases if next.At? then |bytes| - next.pos + 1 else 0
      {
        next, errorFound := ControlStep(bytes, next.pos, sessions);
      }
    }

    /** h3zero_wt_parse_control_stream_id: bind the stream to a declared session. */
    method ParseControlStreamId(bytes: Bytes, start: nat, sessions: set<nat>) returns (next: Cursor)
      requires Valid() && streamType == TYPE_WEBTRANSPORT && start <= |bytes|
      modifies this, frameHeader
      ensures Repr == old(Repr)
      ensures next.At? ==>
                Valid() && start <= next.pos <= |bytes|
                && Feed(old(Live()), sessions, bytes[start..]) == Run(Live(), bytes[next.pos..])
      ensures next.Null? ==> Refuses(old(Live()), sessions, bytes, start, NO_CODE, settings)
    {
      hide Feed, Varint.Value;
      next := At(start);
      if controlStreamId == UINT64_MAX {
        var p;
        p, controlStreamId := VarintFromStream(bytes, start, sessions);
        next := At(p);
        ghost var rest := bytes[p..];
        if controlStreamId == UINT64_MAX {
          assert rest == [];
          return;
        }
        if controlStreamId !in sessions {
          next := Null;
        } else {
          FeedPassThrough(Live(), sessions, rest);
        }
      } else {
        FeedPassThrough(Live(), sessions, bytes[start..]);
      }
    }

    /** The rest of the chunk once the stream type is known. */
    method Dispatch(bytes: Bytes, start: nat, sessions: set<nat>) returns (next: Cursor, errorFound: nat)
      requires Valid() && streamType != UINT64_MAX && start <= |bytes|
      modifies Repr
      ensures fresh(Repr - old(Repr))
      ensures next.At? ==>
                Valid() && start <= next.pos <= |bytes|
                && Feed(old(Live()), sessions, bytes[start..]) == Run(Live(), bytes[next.pos..])
      ensures next.Null? ==> Refuses(old(Live()), sessions, bytes, start, errorFound, settings)
    {
      hide Feed, Varint.Value;
      errorFound := NO_CODE;
      assert bytes[|bytes|..] == [];
      if streamType == TYPE_CONTROL {
        next, errorFound := ParseControlStream(bytes, start, sessions);
        if next.At? { FeedNone(Live(), sessions); }
      } else if streamType == TYPE_WEBTRANSPORT {
        next := ParseControlStreamId(bytes, start, sessions);
      } else {
        next := At(|bytes|);
        FeedDropped(Live(), sessions, bytes[start..]);
      }
    }

    /** h3zero_parse_remote_unidir_stream. The octets behind the cursor returned are the
        application's; only a WebTransport stream has any. */
    method ParseRemoteUnidirStream(bytes: Bytes, sessions: set<nat>) returns (next: Cursor, errorFound: nat)
      requires Valid()
      modifies Repr
      ensures fresh(Repr - old(Repr))
      ensures next.At? ==>
                Valid() && next.pos <= |bytes|
                && Feed(old(Live()), sessions, bytes) == Run(Live(), bytes[next.pos..])
      ensures next.Null? ==> Feed(old(Live()), sessions, bytes) == Fail(errorFound, settings, [])
    {
      hide Feed, Varint.Value;
      assert bytes[0..] == bytes;
      var p: nat := 0;
      if streamType == UINT64_MAX {
        p, streamType := VarintFromStream(bytes, 0, sessions);
        if streamType == UINT64_MAX {
          return At(p), NO_CODE;
        }
        if streamType == TYPE_CONTROL {
          currentFrameType, currentFrameLength, currentFrameRead := UINT64_MAX, UINT64_MAX, 0;
          currentFrame := null;
        }
        PrependNothing(Feed(Live(), sessions, bytes[p..]));
      }
      assert Feed(old(Live()), sessions, bytes) == Feed(Live(), sessions, bytes[p..]);
      next, errorFound := Dispatch(bytes, p, sessions);
    }
  }
}
