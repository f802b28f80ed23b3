/** wt_handle_stream_data, proved against WtStream.Handle. */
module WtClient {
  import opened Bytes
  import opened WtStream
  import Varint
  import Writer
  import Jpeg

  /** The outcome is that of the rest, behind the frames saved so far. */
  ghost predicate Leads(goal: Outcome, frames: seq<Bytes>, rest: Outcome) {
    && goal.next == rest.next && goal.frames == frames + rest.frames
    && goal.ret == rest.ret && goal.stopped == rest.stopped
  }

  lemma LeadsFirst(o: Outcome)
    ensures Leads(o, [], o)
  {
  }

  lemma LeadsOn(goal: Outcome, a: seq<Bytes>, o: Outcome, b: seq<Bytes>, rest: Outcome)
    requires Leads(goal, a, o) && Leads(o, b, rest)
    ensures Leads(goal, a + b, rest)
  {
    assert a + (b + rest.frames) == a + b + rest.frames;
  }

  /** What stands where a length can stand. */
  datatype Detected = NoLength | NotALength | Adopted(pos: nat)

  /** A stream of the server together with the members of app_ctx_t that it uses. */
  class StreamContext {
    const config: Config
    var headerOk: bool
    var useLenFraming: bool
    var curLen: nat
    var ptsLen: nat
    var got: nat
    var cap: nat
    var buf: array<Byte>
    var saved: nat
    var running: bool

    ghost predicate Shape()
      reads this
    {
      buf.Length == cap && got <= cap
    }

    ghost function Live(): Stream
      requires Shape()
      reads this, buf
    {
      Stream(headerOk, useLenFraming, curLen, ptsLen, buf[..got])
    }

    /** While a payload is awaited: got <= payload_need <= cap. */
    ghost predicate Valid()
      reads this, buf
      ensures Valid() ==> Shape()
      ensures Valid() && useLenFraming && Need(Live()) > 0 ==> got <= Need(Live()) <= cap
    {
      Shape() && WtStream.Valid(Live(), saved, config) && (useLenFraming ==> Need(Live()) <= cap)
    }

    constructor (config: Config)
      ensures Valid() && Live() == NEW && saved == 0 && running && this.config == config && fresh(buf)
    {
      this.config := config;
      headerOk, useLenFraming, curLen, ptsLen, got, cap, saved, running := false, false, 0, 0, 0, 0x10_0000, 0, true;
      buf := new Byte[0x10_0000];
      new;
      assert buf[..0] == [];
    }

    /** realloc: a larger buffer with the same octets in front. */
    method Grow(need: nat)
      requires Shape()
      modifies `cap, `buf
      ensures Shape() && need <= cap && Live() == old(Live()) && (buf == old(buf) || fresh(buf))
    {
      if cap < need {
        var nb := new Byte[need];
        forall i | 0 <= i < got { nb[i] := buf[i]; }
        assert nb[..got] == buf[..got];
        buf := nb;
        cap := need;
      }
    }

    /** memcpy behind what is there. */
    method Store(bytes: Bytes)
      requires Shape() && got + |bytes| <= cap
      modifies `got, buf
      ensures Shape() && Live() == old(Live()).(got := old(Live()).got + bytes) && got == old(got) + |bytes|
    {
      ghost var before := buf[..got];
      var at := got;
      Writer.CopyIn(buf, at, bytes);
      got := got + |bytes|;
      assert buf[..got] == before + bytes;
    }

    /** A) The header: octets used, 0 when it is not all there, -1 when it is not ours. */
    method OpenStream(bytes: Bytes, off: nat) returns (used: int)
      requires Valid() && !headerOk && off < |bytes|
      modifies this
      ensures Valid() && saved == old(saved) && running == old(running) && buf == old(buf) && off + used <= |bytes|
      ensures used <= 0 ==> Live() == NEW
      ensures used == 0 ==> Handle(NEW, saved, config, bytes[off..]) == Outcome(NEW, [], 0, false, false)
      ensures used < 0 ==> Handle(NEW, saved, config, bytes[off..]) == Outcome(NEW, [], -1, false, false)
      ensures used > 0 ==> Live() == OPEN
                           && Handle(NEW, saved, config, bytes[off..])
                              == Handle(OPEN, saved, config, bytes[off + used..])
    {
      hide Handle, Varint.Parse, Varint.WtDecode;
      ghost var rest := bytes[off..];
      HandleHeader(saved, config, rest);
      Varint.WtDecodeIsParse(rest);
      var t := Varint.WtDecode(bytes[off..]);
      if t.Incomplete? {
        return 0;
      }
      Varint.ParseUsed(rest);
      Varint.WtDecodeIsParse(rest[t.used..]);
      var i := Varint.WtDecode(bytes[off..][t.used..]);
      if i.Incomplete? {
        return 0;
      }
      used := t.used + i.used;
      if t.value != WT_STREAM || i.value != config.session {
        return -1;
      }
      assert bytes[off..][used..] == bytes[off + used..];
      headerOk, curLen, got, ptsLen, useLenFraming := true, 0, 0, 0, false;
      assert buf[..0] == [];
    }

    /** D) Pictures by their markers. */
    method SearchPictures(bytes: Bytes, off: nat) returns (frames: seq<Bytes>)
      requires Valid() && headerOk && !useLenFraming && off < |bytes|
      modifies this, buf
      ensures Valid() && (buf == old(buf) || fresh(buf)) && saved == old(saved) + |frames|
      ensures var o := Search(old(Live()), old(saved), config, bytes[off..]);
              o.next == Live() && o.frames == frames && o.ret == 0 && running == (old(running) && !o.stopped)
    {
      hide Jpeg.Extract;
      ghost var live := Live();
      Grow(got + (|bytes| - off));
      Store(bytes[off..]);
      var length;
      length, frames := Jpeg.ExtractJpegs(buf, got);
      saved := saved + |frames|;
      if config.maxFrames > 0 && saved >= config.maxFrames {
        running := false;
      }
      got := length;
    }

    /** B) A length in front of a frame, with the time stamp when it is there too. */
    method DetectLength(bytes: Bytes, off: nat) returns (d: Detected)
      requires Valid() && headerOk && !useLenFraming && curLen == 0 && off < |bytes|
      modifies this
      ensures Valid() && saved == old(saved) && running == old(running) && (buf == old(buf) || fresh(buf))
      ensures d.NoLength? ==>
                Live() == old(Live())
                && Detect(old(Live()), saved, config, bytes[off..]) == Outcome(Live(), [], 0, false, false)
      ensures d.NotALength? ==>
                Live() == old(Live())
                && Detect(old(Live()), saved, config, bytes[off..]) == Search(Live(), saved, config, bytes[off..])
      ensures d.Adopted? ==>
                off < d.pos <= |bytes| && headerOk && useLenFraming
                && Leads(Detect(old(Live()), saved, config, bytes[off..]), [],
                         Receive(Live(), saved, config, bytes[d.pos..]))
    {
      hide Receive, Search, Varint.Parse, Varint.WtDecode;
      ghost var rest := bytes[off..];
      Varint.WtDecodeIsParse(rest);
      var fl := Varint.WtDecode(bytes[off..]);
      if fl.Incomplete? {
        return NoLength;
      }
      if fl.value == 0 || fl.value > MAX_FRAME {
        return NotALength;
      }
      Varint.ParseUsed(rest);
      var p := off + fl.used;
      assert rest[fl.used..] == bytes[p..];
      curLen, got, ptsLen, useLenFraming := fl.value, 0, 0, true;
      Varint.ParseUsed(bytes[p..]);
      Varint.WtDecodeIsParse(bytes[p..]);
      var pts := Varint.WtDecode(bytes[p..]);
      if pts.Complete? {
        assert bytes[p..][pts.used..] == bytes[p + pts.used..];
        p := p + pts.used;
        ptsLen := pts.used;
      } else {
        assert bytes[p..][0..] == bytes[p..];
      }
      assert buf[..0] == [];
      Grow(if curLen > ptsLen then curLen - ptsLen else 0);
      d := Adopted(p);
    }

    /** What ReceivePayload says of the octets from `off` on. */
    ghost predicate Received(goal: Outcome, bytes: Bytes, p: nat, frames: seq<Bytes>, stop: bool)
      requires Valid() && p <= |bytes|
      reads this, buf
    {
      Leads(goal, frames,
            if stop then Outcome(Live(), [], 0, true, false) else Handle(Live(), saved, config, bytes[p..]))
    }

    /** C) Payload octets: what is needed and there; a complete payload is saved. */
    method ReceivePayload(bytes: Bytes, off: nat) returns (p: nat, frames: seq<Bytes>, stop: bool)
      requires Valid() && headerOk && useLenFraming && off <= |bytes|
      modifies this, buf
      ensures Valid() && headerOk && buf == old(buf) && saved == old(saved) + |frames| && off <= p <= |bytes|
      ensures Received(Receive(old(Live()), old(saved), config, bytes[off..]), bytes, p, frames, stop)
      ensures !stop && off < |bytes| ==> off < p || !useLenFraming
      ensures running == (old(running) && !stop)
    {
      hide Receive, Handle;
      ghost var live, rest := Live(), bytes[off..];
      var need := if curLen > ptsLen then curLen - ptsLen else 0;
      if need == 0 {
        p, frames, stop := off, [], false;
        useLenFraming := false;
        ReceiveNone(live, saved, config, rest);
        HandleNothing(Live(), saved, config);
        return;
      }
      var avail := |bytes| - off;
      var take := if need - got < avail then need - got else avail;
      p := off + take;
      assert bytes[off..p] == rest[..take] && bytes[p..] == rest[take..];
      if take > 0 {
        Store(bytes[off..p]);
      } else {
        assert live.got + rest[..0] == live.got;
      }
      assert |live.got| == old(got);
      frames, stop := SavePayload(need, bytes, p, live, rest);
    }

    /** The payload is complete: save it and begin anew, or stop with the last one wanted. */
    method SavePayload(need: nat, bytes: Bytes, p: nat, ghost live: Stream, ghost rest: Bytes)
      returns (frames: seq<Bytes>, stop: bool)
      requires Shape() && headerOk && useLenFraming && p <= |bytes| && WtStream.Valid(live, saved, config)
      requires need == Need(live) > 0 && need <= cap && |live.got| <= got <= need && got - |live.got| <= |rest|
      requires Live() == live.(got := live.got + rest[..got - |live.got|]) && bytes[p..] == rest[got - |live.got|..]
      requires got == need || p == |bytes|
      modifies this
      ensures Valid() && headerOk && buf == old(buf) && saved == old(saved) + |frames|
      ensures Received(Receive(live, old(saved), config, rest), bytes, p, frames, stop)
      ensures running == (old(running) && !stop)
      ensures |live.got| == need ==> stop
    {
      hide Receive, Handle;
      frames, stop := [], false;
      if got == need {
        ReceiveFull(live, saved, config, rest);
        saved := saved + 1;
        frames := [buf[..need]];
        if config.maxFrames > 0 && saved >= config.maxFrames {
          running := false;
          return frames, true;
        }
        curLen, got, ptsLen := 0, 0, 0;
        assert buf[..0] == [];
      } else {
        assert rest[..|rest|] == rest && bytes[p..] == [];
        ReceiveShort(live, saved, config, rest);
        HandleNothing(Live(), saved, config);
      }
    }

    /** One turn of the loop; `more` when it goes on behind p. */
    method HandleSome(bytes: Bytes, off: nat)
      returns (p: nat, frames: seq<Bytes>, ret: int, more: bool, ghost stopped: bool)
      requires Valid() && off < |bytes|
      modifies this, buf
      ensures Valid() && (buf == old(buf) || fresh(buf)) && saved == old(saved) + |frames| && off <= p <= |bytes|
      ensures running == (old(running) && !stopped)
      ensures more ==> !stopped && ret == 0 && (off < p || (old(useLenFraming) && !useLenFraming))
      ensures Leads(Handle(old(Live()), old(saved), config, bytes[off..]), frames,
                    if more then Handle(Live(), saved, config, bytes[p..])
                    else Outcome(Live(), [], ret, stopped, false))
    {
      hide Handle, Receive, Detect, Search, WtStream.Valid;
      p, frames, ret, more, stopped := off, [], 0, true, false;
      ghost var live, rest, goal := Live(), bytes[off..], Handle(Live(), saved, config, bytes[off..]);
      LeadsFirst(goal);
      if !headerOk {
        IsNew(live, saved, config);
        var used := OpenStream(bytes, off);
        more := used > 0;
        ret := if used < 0 then -1 else 0;
        if more {
          p := off + used;
        }
        return;
      }
      if !useLenFraming {
        HandleOpen(live, saved, config, rest);
      }
      if !useLenFraming && curLen == 0 {
        var d := DetectLength(bytes, off);
        match d {
          case NoLength =>
            more := false;
            return;
          case NotALength =>
            frames := SearchPictures(bytes, off);
            p, more := |bytes|, false;
            stopped := goal.stopped;
            return;
          case Adopted(pos) =>
            p := pos;
        }
      } else if useLenFraming {
        HandleFraming(live, saved, config, rest);
      }
      if useLenFraming {
        ghost var o := Receive(Live(), saved, config, bytes[p..]);
        assert Leads(goal, [], o);
        var stop;
        p, frames, stop := ReceivePayload(bytes, p);
        more, stopped := !stop, stop;
        assert [] + frames == frames;
        LeadsOn(goal, [], o, frames,
                if more then Handle(Live(), saved, config, bytes[p..]) else Outcome(Live(), [], 0, true, false));
        return;
      }
      frames := SearchPictures(bytes, off);
      p, more := |bytes|, false;
      stopped := goal.stopped;
    }

    /** wt_handle_stream_data for one stream: the frames saved and the value returned. */
    method HandleStreamData(bytes: Bytes) returns (ret: int, frames: seq<Bytes>)
      requires Valid()
      modifies this, buf
      ensures Valid() && (buf == old(buf) || fresh(buf)) && saved == old(saved) + |frames|
      ensures var o := Handle(old(Live()), old(saved), config, bytes);
              Live() == o.next && frames == o.frames && ret == o.ret && running == (old(running) && !o.stopped)
    {
      hide Handle, WtStream.Valid;
      ret, frames := 0, [];
      var off: nat, more := 0, true;
      ghost var stopped := false;
      ghost var goal := Handle(Live(), saved, config, bytes);
      assert bytes[0..] == bytes;
      LeadsFirst(goal);
      while more && off < |bytes|
        invariant Valid() && (buf == old(buf) || fresh(buf)) && saved == old(saved) + |frames| && off <= |bytes|
        invariant running == (old(running) && !stopped)
        invariant more ==> !stopped && ret == 0 && Leads(goal, frames, Handle(Live(), saved, config, bytes[off..]))
        invariant !more ==> Leads(goal, frames, Outcome(Live(), [], ret, stopped, false))
        decreases more, |bytes| - off, useLenFraming
      {
        ghost var now, rest := frames, Handle(Live(), saved, config, bytes[off..]);
        var some;
        off, some, ret, more, stopped := HandleSome(bytes, off);
        LeadsOn(goal, now, rest, some,
                if more then Handle(Live(), saved, config, bytes[off..]) else Outcome(Live(), [], ret, stopped, false));
        frames := frames + some;
      }
      if more {
        assert bytes[off..] == [];
        HandleNothing(Live(), saved, config);
      }
    }
  }
}
