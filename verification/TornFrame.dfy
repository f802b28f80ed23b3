/** A run of the double buffer in which a drop has another capture sent in place of the
    frame that was popped. */
module TornFrame {
  import opened Bytes
  import opened DoubleBuffer

  lemma Unroll(s: State, a: Action, rest: seq<Action>)
    requires Shape(s) && Enabled(s, a)
    ensures Shape(Step(s, a)) && Run(s, [a] + rest) == Run(Step(s, a), rest)
  {
    ShapeStep(s, a);
    assert ([a] + rest)[1..] == rest;
  }

  function Capture(content: Bytes, size: int): seq<Action> {
    [CheckBacklog] + ([BeginCapture] + ([Write(content)] + ([EndCapture(size)] + ([Publish] + []))))
  }

  /** A capture of `size` octets while no frame waits. */
  lemma CaptureRuns(s: State, content: Bytes, size: nat)
    requires Shape(s) && s.running && s.camera.Head? && !Full(s.queue)
    requires 0 < size <= |content| == |s.buffers[0]|
    ensures var i := s.queue.activeIdx;
            Run(s, Capture(content, size))
            == Some(s.(camera := Head(0), buffers := s.buffers[i := content], queue := Published(s.queue, i, size),
                       queuedAt := s.clock, frameIn := s.frameIn[i := |s.published|],
                       published := s.published + [content[..size]]))
  {
    hide Run;
    Unroll(s, CheckBacklog, [BeginCapture] + ([Write(content)] + ([EndCapture(size)] + ([Publish] + []))));
    var s1 := Step(s, CheckBacklog);
    Unroll(s1, BeginCapture, [Write(content)] + ([EndCapture(size)] + ([Publish] + [])));
    var s2 := Step(s1, BeginCapture);
    Unroll(s2, Write(content), [EndCapture(size)] + ([Publish] + []));
    var s3 := Step(s2, Write(content));
    Unroll(s3, EndCapture(size), [Publish] + []);
    var s4 := Step(s3, EndCapture(size));
    Unroll(s4, Publish, []);
    RunNone(Step(s4, Publish));
  }

  lemma {:induction false} RunAppend(s: State, a: seq<Action>, b: seq<Action>)
    requires Shape(s)
    ensures Run(s, a).Some? ==> Shape(Run(s, a).value) && Run(s, a + b) == Run(Run(s, a).value, b)
    decreases |a|
  {
    if a == [] {
      assert a + b == b;
    } else if Enabled(s, a[0]) {
      assert (a + b)[1..] == a[1..] + b;
      ShapeStep(s, a[0]);
      hide Step, Enabled, Shape;
      RunAppend(Step(s, a[0]), a[1..], b);
    }
  }

  lemma RunNone(s: State)
    requires Shape(s)
    ensures Run(s, []) == Some(s)
  {
  }

  /** The camera finds the queue full twice, the second time too late for the frame that waits. */
  function Backlog(): seq<Action> {
    [Tick(1)] + ([CheckBacklog] + ([ReadClock]
    + ([Tick(2 + MAX_BACKLOG_DELAY_US)] + ([CheckBacklog] + ([ReadClock] + [])))))
  }

  lemma BacklogRuns(s: State)
    requires Shape(s) && s.running && s.camera == Head(0) && s.clock == 0 && Full(s.queue)
    ensures Run(s, Backlog()) == Some(s.(clock := 2 + MAX_BACKLOG_DELAY_US, camera := Dropping))
  {
    hide Run;
    var late := 2 + MAX_BACKLOG_DELAY_US;
    Unroll(s, Tick(1), [CheckBacklog] + ([ReadClock] + ([Tick(late)] + ([CheckBacklog] + ([ReadClock] + [])))));
    var s1 := s.(clock := 1);
    Unroll(s1, CheckBacklog, [ReadClock] + ([Tick(late)] + ([CheckBacklog] + ([ReadClock] + []))));
    var s2 := s1.(camera := SawBacklog(0));
    Unroll(s2, ReadClock, [Tick(late)] + ([CheckBacklog] + ([ReadClock] + [])));
    var s3 := s1.(camera := Head(1));
    Unroll(s3, Tick(late), [CheckBacklog] + ([ReadClock] + []));
    var s4 := s3.(clock := late);
    Unroll(s4, CheckBacklog, [ReadClock] + []);
    var s5 := s4.(camera := SawBacklog(1));
    Unroll(s5, ReadClock, []);
    RunNone(s5.(camera := Dropping));
  }

  /** It drops that frame and fills the other buffer. */
  function Overwrite(content: Bytes): seq<Action> {
    [DropBacklog] + ([BeginCapture] + ([Write(content)] + []))
  }

  lemma OverwriteRuns(s: State, content: Bytes)
    requires Shape(s) && s.camera == Dropping && |content| == |s.buffers[0]|
    ensures var i := s.queue.activeIdx;
            Run(s, Overwrite(content))
            == Some(AfterDrop(s).(camera := Capturing(i), buffers := s.buffers[i := content]))
  {
    hide Run;
    Unroll(s, DropBacklog, [BeginCapture] + ([Write(content)] + []));
    var s1 := AfterDrop(s);
    Unroll(s1, BeginCapture, [Write(content)] + []);
    var s2 := Step(s1, BeginCapture);
    Unroll(s2, Write(content), []);
    RunNone(Step(s2, Write(content)));
  }

  function Sends(k: nat): seq<Action> {
    if k == 0 then [] else [SendChunk] + Sends(k - 1)
  }

  /** So many writes send n octets. */
  function Writes(n: nat): nat {
    if n == 0 then 0 else if n <= MTU_CHUNK_BYTES then 1 else 1 + Writes(n - MTU_CHUNK_BYTES)
  }

  /** While the camera rests, what is left of the frame is sent as the buffer holds it now. */
  lemma {:induction false} SendsRun(s: State)
    requires Shape(s) && s.network.Sending? && |s.network.out| <= s.network.size <= |s.buffers[0]|
    ensures var n := s.network;
            Run(s, Sends(Writes(n.size - |n.out|)))
            == Some(s.(network := n.(out := n.out + s.buffers[n.idx][|n.out|..n.size])))
    decreases s.network.size - |s.network.out|
  {
    var n := s.network;
    var left := n.size - |n.out|;
    hide Run;
    if left == 0 {
      RunNone(s);
      assert n.out + s.buffers[n.idx][|n.out|..n.size] == n.out;
    } else {
      var chunk := NextChunk(s);
      Unroll(s, SendChunk, Sends(Writes(left - |chunk|)));
      var t := Step(s, SendChunk);
      SendsRun(t);
      var text := s.buffers[n.idx];
      assert n.out + chunk + text[|n.out| + |chunk|..n.size] == n.out + text[|n.out|..n.size];
    }
  }

  /** Frame 0 is popped, frame 1 waits until it is dropped, then the camera overwrites
      frame 0 before it is sent. */
  function TearingRun(a: Bytes, sizeA: nat, b: Bytes, sizeB: nat, d: Bytes): seq<Action> {
    Capture(a, sizeA) + ([Pop] + (Capture(b, sizeB) + (Backlog()
    + (Overwrite(d) + (Sends(Writes(sizeA)) + ([EndFrame] + []))))))
  }

  /** The guarantee needs its condition: with buffers and pictures of any size, a drop can
      have the octets of another capture sent in place of the popped frame. */
  lemma DropTearsAFrame(first: Bytes, second: Bytes, a: Bytes, sizeA: nat, b: Bytes, sizeB: nat, d: Bytes)
    requires |first| == |second| == |a| == |b| == |d| && 0 < sizeA <= |a| && 0 < sizeB <= |b|
    ensures exists actions, s ::
              && Reaches(first, second, actions, s)
              && s.sent == [Sent(0, d[..sizeA], 1, false)] && s.published == [a[..sizeA], b[..sizeB]]
  {
    hide Run;
    var s0 := Initial(first, second);
    var ending := Sends(Writes(sizeA)) + ([EndFrame] + []);
    var tearing := Backlog() + (Overwrite(d) + ending);
    CaptureRuns(s0, a, sizeA);
    RunAppend(s0, Capture(a, sizeA), [Pop] + (Capture(b, sizeB) + tearing));
    var s1 := Run(s0, Capture(a, sizeA)).value;
    Unroll(s1, Pop, Capture(b, sizeB) + tearing);
    var s2 := Step(s1, Pop);
    CaptureRuns(s2, b, sizeB);
    RunAppend(s2, Capture(b, sizeB), tearing);
    var s3 := Run(s2, Capture(b, sizeB)).value;
    BacklogRuns(s3);
    RunAppend(s3, Backlog(), Overwrite(d) + ending);
    var s4 := Run(s3, Backlog()).value;
    OverwriteRuns(s4, d);
    RunAppend(s4, Overwrite(d), ending);
    var s5 := Run(s4, Overwrite(d)).value;
    assert s5.popped == [0] && s5.buffers == [d, b] && s5.published == [a[..sizeA], b[..sizeB]];
    assert s5.network == Sending(0, sizeA, []) && s5.dropsSincePop == 1 && s5.running && s5.sent == [];
    SendsRun(s5);
    RunAppend(s5, Sends(Writes(sizeA)), [EndFrame] + []);
    var s6 := Run(s5, Sends(Writes(sizeA))).value;
    assert [] + d[0..sizeA] == d[..sizeA];
    assert s6.network.out == d[..sizeA];
    Unroll(s6, EndFrame, []);
    var s7 := Step(s6, EndFrame);
    RunNone(s7);
    assert s7.sent == [Sent(0, d[..sizeA], 1, false)];
    assert Reaches(first, second, TearingRun(a, sizeA, b, sizeB, d), s7);
  }
}
