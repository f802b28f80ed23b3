/** What the camera delivers in a run of the double buffer, read off its actions alone:
    the pictures, without queue, indices or drops. */
module CameraLog {
  import opened Bytes
  import opened DoubleBuffer

  /** The buffer the camera writes, the one it wrote before, the size of a picture that is
      complete (0: none), and the pictures handed over. */
  datatype Log = Log(current: Bytes, previous: Bytes, size: nat, pictures: seq<Bytes>)

  /** A write fills the current buffer; the end of a capture fixes the size, unless the
      size is not one of a picture in this buffer; handing over takes so many octets of it. */
  function Record(l: Log, a: Action): Log {
    match a
    case Write(content) => l.(current := content)
    case EndCapture(size) => l.(size := if size <= 0 || size > |l.current| then 0 else size)
    case Publish =>
      if l.size > |l.current| then l
      else Log(l.previous, l.current, 0, l.pictures + [l.current[..l.size]])
    case _ => l
  }

  function Recorded(l: Log, actions: seq<Action>): Log
    decreases |actions|
  {
    if actions == [] then l else Recorded(Record(l, actions[0]), actions[1..])
  }

  /** The pictures of a run from its start. */
  function Pictures(first: Bytes, second: Bytes, actions: seq<Action>): seq<Bytes> {
    Recorded(Log(first, second, 0, []), actions).pictures
  }

  predicate Agrees(s: State, l: Log)
    requires Shape(s)
  {
    && s.buffers[s.queue.activeIdx] == l.current && s.buffers[s.queue.readyIdx] == l.previous
    && s.published == l.pictures
    && l.size == if s.camera.Captured? then s.camera.size else 0
  }

  lemma StepAgrees(s: State, l: Log, a: Action)
    requires Inv(s) && Enabled(s, a) && Agrees(s, l)
    ensures Shape(Step(s, a)) && Agrees(Step(s, a), Record(l, a))
  {
    ShapeStep(s, a);
    hide QueueHolds, Conserved, SendSafe, SentSafe, Patient, Alternates;
  }

  lemma {:induction false} RunAgrees(s: State, l: Log, actions: seq<Action>)
    requires Inv(s) && Agrees(s, l)
    ensures Run(s, actions).Some? ==>
              var t := Run(s, actions).value; Shape(t) && Agrees(t, Recorded(l, actions))
    decreases |actions|
  {
    if actions != [] && Enabled(s, actions[0]) {
      hide Inv, Step, Record, Agrees;
      InvShape(s);
      StepKeepsInv(s, actions[0]);
      StepAgrees(s, l, actions[0]);
      RunAgrees(Step(s, actions[0]), Record(l, actions[0]), actions[1..]);
    }
  }

  lemma InvShape(s: State)
    requires Inv(s)
    ensures Shape(s)
  {
  }

  /** In every interleaving the frames published are the pictures captured, each with the
      size the camera gave it, and nothing for a capture that failed. */
  lemma PublishedArePictures(first: Bytes, second: Bytes, actions: seq<Action>, s: State)
    requires Reaches(first, second, actions, s)
    ensures s.published == Pictures(first, second, actions)
  {
    InitialInv(first, second);
    RunAgrees(Initial(first, second), Log(first, second, 0, []), actions);
  }

  /** Every send that ended with no drop since its pop gave the stream octets of one of the
      pictures, and all of it unless the streamer was stopped. */
  lemma SentArePictures(first: Bytes, second: Bytes, actions: seq<Action>, s: State, r: Sent)
    requires Reaches(first, second, actions, s) && r in s.sent && r.drops == 0
    ensures var pictures := Pictures(first, second, actions);
            && r.frame < |pictures| && r.out <= pictures[r.frame]
            && (!r.stopped ==> r.out == pictures[r.frame])
  {
    hide Reaches;
    PublishedArePictures(first, second, actions, s);
    SentFramesAreCaptured(first, second, actions, s, r);
  }
}
