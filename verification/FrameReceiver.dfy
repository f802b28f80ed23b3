/** client_cb, the length-framed reassembly of the client, proved against LengthFraming.Take. */
module FrameReceiver {
  import opened Bytes
  import opened LengthFraming
  import Varint
  import Writer

  lemma ThenNothing(t: Taken)
    ensures Then([], t) == t
  {
  }

  lemma ThenTwice(a: seq<Bytes>, b: seq<Bytes>, t: Taken)
    ensures Then(a, Then(b, t)) == Then(a + b, t)
  {
    assert a + (b + t.frames) == a + b + t.frames;
  }

  class AppContext {
    const maxFrames: int
    var frameCount: int
    var frameBuffer: array?<Byte>
    var bufferSize: nat
    var frameSize: nat
    var receivedSize: nat
    var running: bool

    /** The buffer, when there is one, has room for the frame in progress. */
    ghost predicate Valid()
      reads this
    {
      && (frameBuffer != null ==> frameBuffer.Length == bufferSize)
      && (frameBuffer == null ==> bufferSize == 0)
      && (frameSize > 0 ==> receivedSize < frameSize <= bufferSize && frameSize < Varint.LIMIT)
    }

    ghost function Live(): (r: Receiver)
      requires Valid()
      reads this, frameBuffer
      ensures LengthFraming.Valid(r)
    {
      if frameSize == 0 then Idle else Reading(frameSize, frameBuffer[..receivedSize])
    }

    constructor (maxFrames: int)
      ensures Valid() && Live() == Idle && frameCount == 0 && running && frameBuffer == null
      ensures this.maxFrames == maxFrames
    {
      this.maxFrames := maxFrames;
      frameCount, frameBuffer, bufferSize, frameSize, receivedSize, running := 0, null, 0, 0, 0, true;
    }

    /** A length: the frame begins, in a larger buffer if it needs one. */
    method OpenFrame(bytes: Bytes, start: nat) returns (lenLen: nat)
      requires Valid() && Live() == Idle && start < |bytes|
      modifies this
      ensures Valid() && frameCount == old(frameCount) && running == old(running)
      ensures frameBuffer == old(frameBuffer) || fresh(frameBuffer)
      ensures var p := Varint.Parse(bytes[start..]);
              && (p.Incomplete? ==> lenLen == 0 && Live() == Idle)
              && (p.Complete? ==> lenLen == p.used && Live() == Opened(p.value))
    {
      hide Varint.Encode;
      ghost var s := bytes[start..];
      lenLen, frameSize := Varint.Decode(bytes[start..], |bytes| - start);
      if lenLen == 0 {
        return;
      }
      ParseFacts(s);
      hide Varint.Parse, Varint.Value;
      if frameSize > bufferSize {
        frameBuffer := new Byte[frameSize];
        bufferSize := frameSize;
      }
      receivedSize := 0;
      assert frameSize > 0 ==> frameBuffer[..0] == [];
    }

    /** Octets of the frame in progress. */
    method CopyPayload(bytes: Bytes, start: nat) returns (toCopy: nat)
      requires Valid() && frameSize > 0 && start <= |bytes|
      modifies `receivedSize, frameBuffer
      ensures var left := frameSize - old(receivedSize);
              toCopy == if |bytes| - start < left then |bytes| - start else left
      ensures receivedSize == old(receivedSize) + toCopy <= frameSize
      ensures frameBuffer != null && frameBuffer.Length == bufferSize
      ensures frameBuffer[..receivedSize] == old(Live()).got + bytes[start..start + toCopy]
    {
      toCopy := |bytes| - start;
      if receivedSize + toCopy > frameSize {
        toCopy := frameSize - receivedSize;
      }
      ghost var before := frameBuffer[..receivedSize];
      var at := receivedSize;
      Writer.CopyIn(frameBuffer, at, bytes[start..start + toCopy]);
      receivedSize := receivedSize + toCopy;
      assert frameBuffer[..receivedSize] == before + bytes[start..start + toCopy];
    }

    /** The frame in progress takes what it needs; a complete frame is written and counted. */
    method TakePayload(bytes: Bytes, start: nat) returns (p: nat, done: seq<Bytes>)
      requires Valid() && frameSize > 0 && start <= |bytes|
      modifies this, frameBuffer
      ensures Valid() && frameBuffer == old(frameBuffer)
      ensures start <= p <= |bytes| && (start < |bytes| ==> start < p)
      ensures Take(old(Live()), bytes[start..]) == Then(done, Take(Live(), bytes[p..]))
      ensures frameCount == old(frameCount) + |done|
      ensures running == (old(running) && !(done != [] && maxFrames > 0 && frameCount >= maxFrames))
    {
      hide Take, Varint.Parse, Varint.Encode;
      ghost var live, rest := Live(), bytes[start..];
      var toCopy := CopyPayload(bytes, start);
      p, done := start + toCopy, [];
      assert bytes[start..p] == rest[..toCopy] && bytes[p..] == rest[toCopy..];
      if receivedSize == frameSize {
        frameCount := frameCount + 1;
        done := [frameBuffer[..frameSize]];
        frameSize := 0;
        receivedSize := 0;
        if maxFrames > 0 && frameCount >= maxFrames {
          running := false;
        }
        TakeFull(live.size, live.got, rest);
      } else {
        assert rest[..toCopy] == rest && bytes[p..] == [];
        TakeShort(live.size, live.got, rest);
        TakeNothing(Live());
      }
    }

    /** The stream-data branch of client_cb: the frames written to files, in order. */
    method OnStreamData(bytes: Bytes) returns (frames: seq<Bytes>)
      requires Valid()
      modifies this, frameBuffer
      ensures Valid() && (frameBuffer == old(frameBuffer) || fresh(frameBuffer))
      ensures var t := Take(old(Live()), bytes); Live() == t.next && frames == t.frames
      ensures frameCount == old(frameCount) + |frames|
      ensures running == (old(running) && !(frames != [] && maxFrames > 0 && frameCount >= maxFrames))
    {
      hide Take, Varint.Parse, Varint.Encode;
      frames := [];
      var p: nat := 0;
      ghost var goal := Take(Live(), bytes);
      assert bytes[0..] == bytes;
      ThenNothing(goal);
      while p < |bytes|
        invariant p <= |bytes| && Valid() && (frameBuffer == old(frameBuffer) || fresh(frameBuffer))
        invariant goal == Then(frames, Take(Live(), bytes[p..]))
        invariant frameCount == old(frameCount) + |frames|
        invariant running == (old(running) && !(frames != [] && maxFrames > 0 && frameCount >= maxFrames))
        decreases |bytes| - p
      {
        ghost var rest := bytes[p..];
        if frameSize == 0 {
          TakeIdle(rest);
          var lenLen := OpenFrame(bytes, p);
          if lenLen == 0 {
            break;
          }
          assert rest[lenLen..] == bytes[p + lenLen..];
          p := p + lenLen;
        }
        if frameSize > 0 {
          var done;
          ghost var now := frames;
          p, done := TakePayload(bytes, p);
          ThenTwice(now, done, Take(Live(), bytes[p..]));
          frames := frames + done;
        }
      }
      assert p == |bytes| ==> bytes[p..] == [];
      assert frames + [] == frames;
      TakeNothing(Live());
    }
  }
}
