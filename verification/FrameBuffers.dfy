/** The lock sections of the double buffer as code, proved against the steps of DoubleBuffer. */
module FrameBuffers {
  import opened Bytes
  import opened DoubleBuffer

  /** The members of streamer_context_t behind fb_lock. */
  class FrameBuffers {
    const readySize: array<nat>
    const hasFrame: array<bool>
    var activeIdx: nat
    var readyIdx: nat

    ghost predicate Valid()
      reads this
    {
      readySize.Length == 2 && hasFrame.Length == 2 && activeIdx < 2 && readyIdx < 2
    }

    ghost function View(): (q: Queue)
      requires Valid()
      reads this, readySize, hasFrame
      ensures Bounded(q)
    {
      Queue(hasFrame[..], readySize[..], activeIdx, readyIdx)
    }

    constructor ()
      ensures Valid() && View() == EMPTY && fresh(readySize) && fresh(hasFrame)
    {
      readySize := new nat[2](_ => 0);
      hasFrame := new bool[2](_ => false);
      activeIdx, readyIdx := 0, 1;
      new;
      assert hasFrame[..] == [false, false] && readySize[..] == [0, 0];
    }

    /** pop_ready_frame */
    method PopReadyFrame() returns (has: bool, outIdx: int, outSz: nat)
      requires Valid()
      modifies readySize, hasFrame
      ensures Valid() && has == CanPop(old(View()))
      ensures has ==> outIdx == old(readyIdx) && outSz == old(View()).readySize[outIdx] > 0
      ensures !has ==> outIdx == -1 && outSz == 0
      ensures View() == if has then Emptied(old(View())) else old(View())
    {
      has, outIdx, outSz := false, -1, 0;
      var idx := readyIdx;
      if hasFrame[idx] && readySize[idx] > 0 {
        has := true;
        outIdx := idx;
        outSz := readySize[idx];
        hasFrame[idx] := false;
        readySize[idx] := 0;
      }
    }

    /** The check at the head of the camera loop. */
    method BacklogFull() returns (full: bool)
      requires Valid()
      ensures full == Full(View())
    {
      full := hasFrame[readyIdx];
    }

    /** The camera throws the frame away that waits. */
    method DropBacklog()
      requires Valid()
      modifies readySize, hasFrame
      ensures Valid() && View() == Emptied(old(View())) && !Full(View())
    {
      hasFrame[readyIdx] := false;
      readySize[readyIdx] := 0;
    }

    /** The camera hands buffer idx over and swaps the indices. */
    method PublishFrame(idx: nat, jpegSize: nat)
      requires Valid() && idx < 2
      modifies this, readySize, hasFrame
      ensures Valid() && View() == Published(old(View()), idx, jpegSize)
    {
      readySize[idx] := jpegSize;
      hasFrame[idx] := true;
      var tmp := activeIdx;
      activeIdx := readyIdx;
      readyIdx := tmp;
    }

    /** One turn of the camera loop up to the capture: wait, or go on with the start of
        the backlog period reset, dropping a frame that has waited too long. */
    method CheckBacklog(backlogStart: nat, now: nat) returns (capture: bool, start: nat)
      requires Valid() && backlogStart <= now
      modifies readySize, hasFrame
      ensures Valid()
      ensures var q := old(View());
              var begun := if backlogStart == 0 then now else backlogStart;
              && capture == (!Full(q) || now - begun > MAX_BACKLOG_DELAY_US)
              && View() == (if Full(q) && capture then Emptied(q) else q)
              && start == if capture then 0 else begun
    {
      start := backlogStart;
      var full := BacklogFull();
      if full {
        if start == 0 {
          start := now;
        }
        if now - start > MAX_BACKLOG_DELAY_US {
          DropBacklog();
          start := 0;
        } else {
          return false, start;
        }
      } else {
        start := 0;
      }
      capture := true;
    }
  }

  /** What the lock sections keep: the buffers stay apart and sizes agree with flags. A
      publish needs an empty queue and the camera's own buffer, as DoubleBuffer shows it has. */
  lemma SectionsKeepSound(q: Queue, idx: nat, size: nat)
    requires Sound(q)
    ensures Sound(Emptied(q)) && !Full(Emptied(q)) && Emptied(q).activeIdx == q.activeIdx
    ensures CanPop(q) <==> Full(q)
    ensures idx == q.activeIdx && size > 0 ==> (Sound(Published(q, idx, size)) <==> !Full(q))
    ensures idx == q.activeIdx ==> Full(Published(q, idx, size)) && Published(q, idx, size).readyIdx == idx
  {
  }
}
