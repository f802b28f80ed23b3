/** The camera and the network thread share two frame buffers. Each lock section, each
    clock reading and each begin, write and end of a capture or of a send is one step;
    the two threads take steps in any order. */
module DoubleBuffer {
  import opened Bytes

  const MAX_BACKLOG_DELAY_US: nat := 200_000
  const MTU_CHUNK_BYTES: nat := 0x4000

  // ------------------------------------------------------ the lock sections

  /** The members guarded by fb_lock. */
  datatype Queue = Queue(hasFrame: seq<bool>, readySize: seq<nat>, activeIdx: nat, readyIdx: nat)

  const EMPTY: Queue := Queue([false, false], [0, 0], 0, 1)

  predicate Bounded(q: Queue) {
    |q.hasFrame| == 2 && |q.readySize| == 2 && q.activeIdx < 2 && q.readyIdx < 2
  }

  /** A frame waits for the network thread. */
  predicate Full(q: Queue)
    requires Bounded(q)
  {
    q.hasFrame[q.readyIdx]
  }

  /** What pop and drop do to the buffer that is ready. */
  function Emptied(q: Queue): Queue
    requires Bounded(q)
  {
    q.(hasFrame := q.hasFrame[q.readyIdx := false], readySize := q.readySize[q.readyIdx := 0])
  }

  predicate CanPop(q: Queue)
    requires Bounded(q)
  {
    q.hasFrame[q.readyIdx] && q.readySize[q.readyIdx] > 0
  }

  /** Buffer idx holds a frame of this size; the two indices change places. */
  function Published(q: Queue, idx: nat, size: nat): Queue
    requires Bounded(q) && idx < 2
  {
    Queue(q.hasFrame[idx := true], q.readySize[idx := size], q.readyIdx, q.activeIdx)
  }

  /** The two indices are the two buffers, the one the camera fills is not waiting for
      the network, and a buffer has a size exactly when it has a frame. */
  predicate Sound(q: Queue) {
    && Bounded(q) && q.activeIdx != q.readyIdx && !q.hasFrame[q.activeIdx]
    && forall i | 0 <= i < 2 :: q.hasFrame[i] <==> q.readySize[i] > 0
  }

  // -------------------------------------------------------------- the threads

  /** Where the camera thread stands. `start` is backlog_start_us. */
  datatype Camera =
    | Head(start: nat)
    | SawBacklog(start: nat)
    | Dropping
    | Cleared
    | Capturing(idx: nat)
    | Captured(idx: nat, size: nat)
    | CameraDone

  /** Where the network thread stands. While sending it holds the index and the size
      it popped; `out` is what it gave to the stream after the length. */
  datatype Network =
    | Polling
    | Sending(idx: nat, size: nat, out: Bytes)
    | NetworkDone

  /** A send that ended: the number of the frame, what was sent of it, how many frames
      were dropped since it was popped, whether the streamer was stopped meanwhile. */
  datatype Sent = Sent(frame: nat, out: Bytes, drops: nat, stopped: bool)

  /** The shared state and both threads, then what is remembered of the run: the frames
      in the order of publication, the number of the frame in each buffer, the numbers
      popped and dropped, the time of the last publication, the drops since the last
      pop, and the sends that ended. */
  datatype State = State(
    running: bool, clock: nat, queue: Queue, buffers: seq<Bytes>, camera: Camera, network: Network,
    published: seq<Bytes>, frameIn: seq<nat>, popped: seq<nat>, dropped: seq<nat>, queuedAt: nat,
    dropsSincePop: nat, sent: seq<Sent>)

  function Initial(first: Bytes, second: Bytes): State {
    State(true, 0, EMPTY, [first, second], Head(0), Polling, [], [0, 0], [], [], 0, 0, [])
  }

  /** What the C types alone guarantee. */
  predicate Shape(s: State) {
    && Bounded(s.queue) && |s.buffers| == 2 && |s.frameIn| == 2 && |s.buffers[0]| == |s.buffers[1]|
    && (s.camera.Capturing? || s.camera.Captured? ==> s.camera.idx < 2)
    && (s.camera.Captured? ==> 0 < s.camera.size <= |s.buffers[0]|)
    && (s.network.Sending? ==> s.network.idx < 2)
  }

  datatype Action =
    | Tick(now: nat)
    | Stop
    | CheckBacklog
    | ReadClock
    | DropBacklog
    | BeginCapture
    | Write(content: Bytes)
    | EndCapture(size: int)
    | Publish
    | CameraExit
    | Pop
    | SendChunk
    | EndFrame
    | SendFails
    | NetworkExit

  /** When a thread can take a step. A thread tests `running` some time before it acts, so
      only the steps that follow a test that failed need the streamer to be stopped. */
  predicate Enabled(s: State, a: Action)
    requires Shape(s)
  {
    match a
    case Tick(now) => s.clock <= now
    case Stop => true
    case CheckBacklog => s.camera.Head?
    case CameraExit => s.camera.Head? && !s.running
    case ReadClock => s.camera.SawBacklog?
    case DropBacklog => s.camera.Dropping?
    case BeginCapture => s.camera.Cleared?
    case Write(content) => s.camera.Capturing? && |content| == |s.buffers[0]|
    case EndCapture(size) => s.camera.Capturing?
    case Publish => s.camera.Captured?
    case Pop => s.network.Polling?
    case SendChunk => s.network.Sending? && |s.network.out| < s.network.size <= |s.buffers[0]|
    case EndFrame => s.network.Sending? && (|s.network.out| >= s.network.size || !s.running) && s.popped != []
    case SendFails => s.network.Sending?
    case NetworkExit => s.network.Polling?
  }

  function Step(s: State, a: Action): State
    requires Shape(s) && Enabled(s, a)
  {
    match a
    case Tick(now) => s.(clock := now)
    case Stop => s.(running := false)
    case CheckBacklog => s.(camera := if Full(s.queue) then SawBacklog(s.camera.start) else Cleared)
    case CameraExit => s.(camera := CameraDone)
    case ReadClock =>
      var start := if s.camera.start == 0 then s.clock else s.camera.start;
      s.(camera := if s.clock - start > MAX_BACKLOG_DELAY_US then Dropping else Head(start))
    case DropBacklog => AfterDrop(s)
    case BeginCapture => s.(camera := Capturing(s.queue.activeIdx))
    case Write(content) => s.(buffers := s.buffers[s.camera.idx := content])
    case EndCapture(size) =>
      s.(camera := if 0 < size <= |s.buffers[0]| then Captured(s.camera.idx, size) else Head(0))
    case Publish => AfterPublish(s)
    case Pop => AfterPop(s)
    case SendChunk => s.(network := s.network.(out := s.network.out + NextChunk(s)))
    case EndFrame =>
      var r := Sent(s.popped[|s.popped| - 1], s.network.out, s.dropsSincePop, !s.running);
      s.(network := Polling, sent := s.sent + [r])
    case SendFails => s.(network := NetworkDone, running := false)
    case NetworkExit => s.(network := NetworkDone)
  }

  /** The frame that waits, if any, is thrown away. */
  function AfterDrop(s: State): State
    requires Shape(s)
  {
    var t := s.(queue := Emptied(s.queue), camera := Cleared);
    if Full(s.queue)
    then t.(dropped := s.dropped + [s.frameIn[s.queue.readyIdx]], dropsSincePop := s.dropsSincePop + 1)
    else t
  }

  function AfterPublish(s: State): State
    requires Shape(s) && s.camera.Captured?
  {
    var i := s.camera.idx;
    s.(queue := Published(s.queue, i, s.camera.size), camera := Head(0), queuedAt := s.clock,
       frameIn := s.frameIn[i := |s.published|], published := s.published + [s.buffers[i][..s.camera.size]])
  }

  function AfterPop(s: State): State
    requires Shape(s)
  {
    if CanPop(s.queue) then
      var i := s.queue.readyIdx;
      s.(queue := Emptied(s.queue), network := Sending(i, s.queue.readySize[i], []),
         popped := s.popped + [s.frameIn[i]], dropsSincePop := 0)
    else s
  }

  /** At most MTU_CHUNK_BYTES of what the buffer holds now. */
  function NextChunk(s: State): Bytes
    requires Shape(s) && s.network.Sending? && |s.network.out| < s.network.size <= |s.buffers[0]|
  {
    var from := |s.network.out|;
    var left := s.network.size - from;
    s.buffers[s.network.idx][from..from + if left > MTU_CHUNK_BYTES then MTU_CHUNK_BYTES else left]
  }

  // ------------------------------------------------------------- invariants

  predicate Increasing(ns: seq<nat>) {
    forall i, j | 0 <= i < j < |ns| :: ns[i] < ns[j]
  }

  /** The camera holds the buffer it fills, and it fills it only while none waits. */
  predicate CameraSafe(s: State)
    requires Shape(s)
  {
    && Sound(s.queue)
    && (s.camera.Capturing? || s.camera.Captured? ==> s.camera.idx == s.queue.activeIdx)
    && (s.camera.Cleared? || s.camera.Capturing? || s.camera.Captured? ==> !Full(s.queue))
  }

  /** The frame that waits is the last one published, byte for byte. */
  predicate QueueHolds(s: State)
    requires Shape(s)
  {
    var i := s.queue.readyIdx;
    Full(s.queue) ==>
      && s.published != [] && s.frameIn[i] == |s.published| - 1
      && s.queue.readySize[i] == |s.published[|s.published| - 1]| <= |s.buffers[i]|
      && s.buffers[i][..s.queue.readySize[i]] == s.published[|s.published| - 1]
  }

  /** How many of the published frames have left the queue. */
  function Gone(s: State): (n: int)
    requires Shape(s)
  {
    |s.published| - if Full(s.queue) then 1 else 0
  }

  /** Every published frame is popped, dropped or waiting, and no two of these. */
  predicate Conserved(s: State)
    requires Shape(s)
  {
    && |s.published| == |s.popped| + |s.dropped| + (if Full(s.queue) then 1 else 0)
    && Increasing(s.popped) && Increasing(s.dropped)
    && (forall n | n in s.popped :: n < Gone(s) && n !in s.dropped)
    && (forall n | n in s.dropped :: n < Gone(s))
    && (forall n | 0 <= n < Gone(s) :: n in s.popped || n in s.dropped)
  }

  /** Where the buffer that is being sent can be while nothing was dropped: still at the
      reading side with none waiting, or at the filling side with one waiting and the
      camera held up. */
  predicate OutOfReach(s: State)
    requires Shape(s) && s.network.Sending?
  {
    if s.network.idx == s.queue.readyIdx then !Full(s.queue)
    else Full(s.queue) && (s.camera.Head? || s.camera.SawBacklog? || s.camera.Dropping? || s.camera.CameraDone?)
  }

  /** What is being sent is the popped frame, as long as nothing was dropped since. */
  predicate SendSafe(s: State)
    requires Shape(s)
  {
    s.network.Sending? ==>
      && s.popped != [] && var f := s.popped[|s.popped| - 1];
      && f < |s.published| && s.network.size == |s.published[f]| <= |s.buffers[0]| && |s.network.out| <= s.network.size
      && (s.dropsSincePop == 0 ==>
            && OutOfReach(s)
            && s.buffers[s.network.idx][..s.network.size] == s.published[f]
            && s.network.out == s.published[f][..|s.network.out|])
  }

  /** So is everything that was sent. */
  predicate SentSafe(s: State) {
    forall r | r in s.sent ::
      && r.frame < |s.published|
      && (r.drops == 0 ==> r.out <= s.published[r.frame] && (!r.stopped ==> r.out == s.published[r.frame]))
  }

  /** Every drop since the pop lets the camera go on to the other buffer: after an odd
      number of them the buffer being sent is where it would not be without. */
  predicate Alternates(s: State)
    requires Shape(s)
  {
    s.network.Sending? ==>
      (s.network.idx == s.queue.activeIdx <==> (Full(s.queue) <==> s.dropsSincePop % 2 == 0))
  }

  /** A frame about to be dropped has waited longer than the limit. */
  predicate Patient(s: State)
    requires Shape(s)
  {
    Full(s.queue) ==>
      && s.queuedAt <= s.clock
      && ((s.camera.Head? || s.camera.SawBacklog?) && s.camera.start > 0 ==> s.queuedAt <= s.camera.start <= s.clock)
      && (s.camera.Dropping? ==> s.clock - s.queuedAt > MAX_BACKLOG_DELAY_US)
  }

  predicate Inv(s: State) {
    && Shape(s) && CameraSafe(s) && QueueHolds(s) && Conserved(s) && SendSafe(s) && SentSafe(s) && Patient(s)
    && Alternates(s)
  }

  lemma InitialInv(first: Bytes, second: Bytes)
    requires |first| == |second|
    ensures Inv(Initial(first, second))
  {
  }

  lemma ShapeStep(s: State, a: Action)
    requires Shape(s) && Enabled(s, a)
    ensures Shape(Step(s, a))
  {
  }

  lemma CameraSafeStep(s: State, a: Action)
    requires Inv(s) && Enabled(s, a)
    ensures Shape(Step(s, a)) && CameraSafe(Step(s, a))
  {
    hide Conserved, SendSafe, SentSafe, Patient, QueueHolds;
  }

  lemma QueueHoldsStep(s: State, a: Action)
    requires Inv(s) && Enabled(s, a)
    ensures Shape(Step(s, a)) && QueueHolds(Step(s, a))
  {
    hide Conserved, SendSafe, SentSafe, Patient;
  }

  lemma PatientStep(s: State, a: Action)
    requires Inv(s) && Enabled(s, a)
    ensures Shape(Step(s, a)) && Patient(Step(s, a))
  {
    hide Conserved, SendSafe, SentSafe, QueueHolds;
  }

  lemma ConservedStep(s: State, a: Action)
    requires Inv(s) && Enabled(s, a)
    ensures Shape(Step(s, a)) && Conserved(Step(s, a))
  {
    hide SendSafe, SentSafe, Patient;
    var t, g := Step(s, a), |s.published| - 1;
    if t.popped != s.popped {
      assert t.popped == s.popped + [g] && g == Gone(s) && Gone(t) == g + 1;
      OneMore(s.popped, g);
    } else if t.dropped != s.dropped {
      assert t.dropped == s.dropped + [g] && g == Gone(s) && Gone(t) == g + 1;
      OneMore(s.dropped, g);
    }
  }

  lemma OneMore(ns: seq<nat>, g: nat)
    requires Increasing(ns) && forall n | n in ns :: n < g
    ensures Increasing(ns + [g]) && forall n :: n in ns + [g] <==> n in ns || n == g
  {
    assert forall i | 0 <= i < |ns| :: ns[i] in ns;
  }

  lemma SendSafeStep(s: State, a: Action)
    requires Inv(s) && Enabled(s, a)
    ensures Shape(Step(s, a)) && SendSafe(Step(s, a))
  {
    hide Patient, Conserved, SentSafe, Alternates;
    if a.Pop? {
      PopSendSafe(s);
    } else if a.SendChunk? {
      SendChunkSendSafe(s);
    } else {
      hide NextChunk;
      if !a.Write? { assert Step(s, a).buffers == s.buffers; }
    }
  }

  lemma PopSendSafe(s: State)
    requires Inv(s) && Enabled(s, Pop)
    ensures Shape(Step(s, Pop)) && SendSafe(Step(s, Pop))
  {
    hide Patient, Conserved, SentSafe, Alternates;
  }

  lemma SendChunkSendSafe(s: State)
    requires Inv(s) && Enabled(s, SendChunk)
    ensures Shape(Step(s, SendChunk)) && SendSafe(Step(s, SendChunk))
  {
    hide Patient, Conserved, SentSafe, Alternates, QueueHolds;
  }

  lemma AlternatesStep(s: State, a: Action)
    requires Inv(s) && Enabled(s, a)
    ensures Shape(Step(s, a)) && Alternates(Step(s, a))
  {
    hide Conserved, SendSafe, SentSafe, Patient, QueueHolds;
  }

  lemma SentSafeStep(s: State, a: Action)
    requires Inv(s) && Enabled(s, a)
    ensures Shape(Step(s, a)) && SentSafe(Step(s, a))
  {
    hide Patient, Conserved, QueueHolds, CameraSafe;
    ShapeStep(s, a);
    var t := Step(s, a);
    assert s.published <= t.published;
    if a.EndFrame? {
      var f := s.popped[|s.popped| - 1];
      assert s.dropsSincePop == 0 ==> s.network.out <= s.published[f];
    } else {
      assert t.sent == s.sent;
    }
  }

  // ----------------------------------------------------------- whole runs

  /** The state after the actions, None when one of them was not possible. */
  function Run(s: State, actions: seq<Action>): Option<State>
    requires Shape(s)
    decreases |actions|
  {
    if actions == [] then Some(s)
    else if !Enabled(s, actions[0]) then None
    else
      ShapeStep(s, actions[0]);
      Run(Step(s, actions[0]), actions[1..])
  }

  lemma StepKeepsInv(s: State, a: Action)
    requires Inv(s) && Enabled(s, a)
    ensures Inv(Step(s, a))
  {
    CameraSafeStep(s, a);
    QueueHoldsStep(s, a);
    PatientStep(s, a);
    ConservedStep(s, a);
    SendSafeStep(s, a);
    SentSafeStep(s, a);
    AlternatesStep(s, a);
    hide CameraSafe, QueueHolds, Conserved, SendSafe, SentSafe, Patient, Alternates;
  }

  lemma {:induction false} RunKeepsInv(s: State, actions: seq<Action>)
    requires Inv(s)
    ensures Run(s, actions).Some? ==> Inv(Run(s, actions).value)
    decreases |actions|
  {
    hide CameraSafe, QueueHolds, Conserved, SendSafe, SentSafe, Patient, Alternates;
    if actions != [] && Enabled(s, actions[0]) {
      StepKeepsInv(s, actions[0]);
      RunKeepsInv(Step(s, actions[0]), actions[1..]);
    }
  }

  predicate Reaches(first: Bytes, second: Bytes, actions: seq<Action>, s: State) {
    |first| == |second| && Run(Initial(first, second), actions) == Some(s)
  }

  lemma {:induction false} RunningFrom(s: State, actions: seq<Action>)
    requires Shape(s)
    ensures Run(s, actions).Some? ==>
              (Run(s, actions).value.running <==> s.running && Stop !in actions && SendFails !in actions)
    decreases |actions|
  {
    if actions != [] && Enabled(s, actions[0]) {
      ShapeStep(s, actions[0]);
      RunningFrom(Step(s, actions[0]), actions[1..]);
      assert forall a :: a in actions <==> a == actions[0] || a in actions[1..];
      hide Run, Enabled;
    }
  }

  /** The streamer runs until it is told to stop or a write fails, and never again afterwards. */
  lemma RunningIff(first: Bytes, second: Bytes, actions: seq<Action>, s: State)
    requires Reaches(first, second, actions, s)
    ensures s.running <==> Stop !in actions && SendFails !in actions
  {
    RunningFrom(Initial(first, second), actions);
  }

  /** In every interleaving: the camera writes the buffer that is being sent exactly when
      an odd number of frames was dropped since that one was popped. */
  lemma OverwritesIffOddDrops(first: Bytes, second: Bytes, actions: seq<Action>, s: State)
    requires Reaches(first, second, actions, s)
    requires s.camera.Capturing? && s.network.Sending?
    ensures s.camera.idx == s.network.idx <==> s.dropsSincePop % 2 == 1
  {
    InitialInv(first, second);
    RunKeepsInv(Initial(first, second), actions);
  }

  /** In particular no frame is torn without a drop. */
  lemma NoTornFrameWithoutDrop(first: Bytes, second: Bytes, actions: seq<Action>, s: State)
    requires Reaches(first, second, actions, s)
    requires s.camera.Capturing? && s.network.Sending? && s.camera.idx == s.network.idx
    ensures s.dropsSincePop > 0
  {
    InitialInv(first, second);
    RunKeepsInv(Initial(first, second), actions);
  }

  /** Every send that ended with no drop since its pop gave the stream octets of the
      captured frame and no others; all of them unless the streamer was stopped. */
  lemma SentFramesAreCaptured(first: Bytes, second: Bytes, actions: seq<Action>, s: State, r: Sent)
    requires Reaches(first, second, actions, s) && r in s.sent && r.drops == 0
    ensures r.frame < |s.published| && r.out <= s.published[r.frame]
    ensures !r.stopped ==> r.out == s.published[r.frame]
  {
    InitialInv(first, second);
    RunKeepsInv(Initial(first, second), actions);
    hide CameraSafe, QueueHolds, Conserved, SendSafe, Patient;
  }

  /** The send loop never stops short and never reads behind the frame buffer: while it
      runs and octets are left it can send the next chunk, and otherwise it can end. */
  lemma SendStaysInBounds(first: Bytes, second: Bytes, actions: seq<Action>, s: State)
    requires Reaches(first, second, actions, s) && s.network.Sending?
    ensures Shape(s) && s.network.size <= |s.buffers[s.network.idx]|
    ensures if s.running && |s.network.out| < s.network.size then Enabled(s, SendChunk) else Enabled(s, EndFrame)
  {
    InitialInv(first, second);
    RunKeepsInv(Initial(first, second), actions);
  }

  /** A write takes 16 KiB, or what is left of the frame when that is less. */
  lemma WritesAreFull(first: Bytes, second: Bytes, actions: seq<Action>, s: State)
    requires Reaches(first, second, actions, s) && Shape(s) && Enabled(s, SendChunk)
    ensures var left := s.network.size - |s.network.out|;
            && |NextChunk(s)| == (if left > 16384 then 16384 else left)
            && Step(s, SendChunk).network.out == s.network.out + NextChunk(s)
  {
    InitialInv(first, second);
    RunKeepsInv(Initial(first, second), actions);
  }

  /** Popped frames are a strictly increasing choice of the published ones, and
      published = popped + dropped + waiting, frame by frame. */
  lemma QueueIsSafe(first: Bytes, second: Bytes, actions: seq<Action>, s: State)
    requires Reaches(first, second, actions, s)
    ensures Shape(s) && Sound(s.queue) && Conserved(s) && QueueHolds(s)
  {
    InitialInv(first, second);
    RunKeepsInv(Initial(first, second), actions);
  }

  /** A frame that is dropped was waiting for more than 200 milliseconds. */
  lemma DropsArePatient(first: Bytes, second: Bytes, actions: seq<Action>, s: State)
    requires Reaches(first, second, actions, s) && Shape(s) && Enabled(s, DropBacklog) && Full(s.queue)
    ensures s.clock > s.queuedAt + 200_000
  {
    InitialInv(first, second);
    RunKeepsInv(Initial(first, second), actions);
  }
}
