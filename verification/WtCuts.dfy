/** What the WebTransport client saves of frames with a length and a time stamp, for any
    cut into chunks that spares the lengths, up to the limit of wanted frames and beyond. */
module WtCuts {
  import opened Bytes
  import opened WtStream
  import opened WtFrames
  import Varint

  /** What a frame is saved as: a stamp that did not arrive with its length is payload. */
  function Target(f: Timed, stamped: bool): Bytes {
    if stamped then f.payload else f.pts + f.payload
  }

  /** Where a stream stands: before its header, between frames, inside a frame of which
      some octets are stored. */
  datatype Place =
    | Start(frames: seq<Timed>)
    | Gap(frames: seq<Timed>)
    | Inside(f: Timed, stamped: bool, done: nat, frames: seq<Timed>)

  predicate Possible(p: Place) {
    && AllSendable(p.frames)
    && (p.Inside? ==> Sendable(p.f) && p.done <= |Target(p.f, p.stamped)|)
  }

  /** The last wanted frame is complete and stays. */
  predicate Stuck(p: Place) {
    p.Inside? && p.done == |Target(p.f, p.stamped)|
  }

  predicate Stands(s: Stream, p: Place)
    requires Possible(p)
  {
    match p
    case Start(_) => s == NEW
    case Gap(_) => Between(s)
    case Inside(f, stamped, done, _) =>
      s == Stream(true, true, Total(f), if stamped then |f.pts| else 0, Target(f, stamped)[..done])
  }

  /** The octets of the stream that are still to come. */
  function Rest(p: Place, c: Config): Bytes
    requires Possible(p)
  {
    match p
    case Start(fs) => StreamHeader(c.session) + Wire(fs)
    case Gap(fs) => Wire(fs)
    case Inside(f, stamped, done, fs) => Target(f, stamped)[done..] + Wire(fs)
  }

  function LengthOf(f: Timed): nat {
    |Varint.Encode(Total(f))|
  }

  // ---------------------------------------------------------- what is saved

  /** A chunk ends behind the length of the frame at octet `at` and before the end of its stamp. */
  predicate StampCut(f: Timed, at: nat, ends: set<nat>) {
    exists k | k in ends :: at + LengthOf(f) <= k < at + LengthOf(f) + |f.pts|
  }

  /** The wanted frames as they are saved, when chunks end at these octets. */
  function SavedAs(frames: seq<Timed>, at: nat, saved: nat, c: Config, ends: set<nat>): seq<Bytes>
    decreases |frames|
  {
    if frames == [] then []
    else
      var f := frames[0];
      [Target(f, !StampCut(f, at, ends))]
      + if Reached(c, saved + 1) then []
        else SavedAs(frames[1..], at + LengthOf(f) + Total(f), saved + 1, c, ends)
  }

  /** The payloads of the wanted frames: all, or as many as the limit says. */
  function Wanted(frames: seq<Timed>, saved: nat, c: Config): seq<Bytes>
    decreases |frames|
  {
    if frames == [] then []
    else [frames[0].payload] + if Reached(c, saved + 1) then [] else Wanted(frames[1..], saved + 1, c)
  }

  predicate SomeStampCut(frames: seq<Timed>, at: nat, saved: nat, c: Config, ends: set<nat>)
    decreases |frames|
  {
    frames != [] && var f := frames[0];
    || StampCut(f, at, ends)
    || (!Reached(c, saved + 1)
        && SomeStampCut(frames[1..], at + LengthOf(f) + Total(f), saved + 1, c, ends))
  }

  /** A chunk ends inside the length of a wanted frame. */
  predicate SomeLengthCut(frames: seq<Timed>, at: nat, saved: nat, c: Config, ends: set<nat>)
    decreases |frames|
  {
    frames != [] && var f := frames[0];
    || (exists k | k in ends :: at < k < at + LengthOf(f))
    || (!Reached(c, saved + 1)
        && SomeLengthCut(frames[1..], at + LengthOf(f) + Total(f), saved + 1, c, ends))
  }

  /** The payloads are saved exactly when no stamp is cut off from its length. */
  lemma {:induction false} SavedAsWanted(frames: seq<Timed>, at: nat, saved: nat, c: Config, ends: set<nat>)
    requires AllSendable(frames)
    ensures SavedAs(frames, at, saved, c, ends) == Wanted(frames, saved, c)
       <==> !SomeStampCut(frames, at, saved, c, ends)
    ensures |SavedAs(frames, at, saved, c, ends)| == |Wanted(frames, saved, c)|
    decreases |frames|
  {
    if frames != [] {
      var f, next := frames[0], at + LengthOf(frames[0]) + Total(frames[0]);
      hide StampCut;
      assert Sendable(f);
      SavedAsWanted(frames[1..], next, saved + 1, c, ends);
      var a, b := SavedAs(frames, at, saved, c, ends), Wanted(frames, saved, c);
      assert |Target(f, false)| != |f.payload|;
      assert a == b ==> a[0] == b[0] && a[1..] == b[1..];
    }
  }

  // -------------------------------------------------------------- one chunk

  /** The wanted frames that are still to be saved, the first octet to come being octet `at`. */
  function Expected(p: Place, at: nat, saved: nat, c: Config, ends: set<nat>): seq<Bytes>
    requires Possible(p)
  {
    match p
    case Start(fs) => SavedAs(fs, at + |StreamHeader(c.session)|, saved, c, ends)
    case Gap(fs) => SavedAs(fs, at, saved, c, ends)
    case Inside(f, stamped, done, fs) =>
      var t := Target(f, stamped);
      if Stuck(p) then []
      else [t] + if Reached(c, saved + 1) then [] else SavedAs(fs, at + |t| - done, saved + 1, c, ends)
  }

  /** No chunk ends inside the header or inside the length of a wanted frame. */
  predicate Spares(p: Place, at: nat, saved: nat, c: Config, ends: set<nat>)
    requires Possible(p)
  {
    match p
    case Start(fs) =>
      var h := |StreamHeader(c.session)|;
      (forall k | k in ends :: !(at < k < at + h)) && !SomeLengthCut(fs, at + h, saved, c, ends)
    case Gap(fs) => !SomeLengthCut(fs, at, saved, c, ends)
    case Inside(f, stamped, done, fs) =>
      || Stuck(p) || Reached(c, saved + 1)
      || !SomeLengthCut(fs, at + |Target(f, stamped)| - done, saved + 1, c, ends)
  }

  /** A chunk of n octets ends at one of the ends and passes none. */
  predicate NextEnd(at: nat, n: nat, ends: set<nat>) {
    at + n in ends && forall k | k in ends :: !(at < k < at + n)
  }

  /** How many frames a stream can still save without the limit. */
  function Remaining(p: Place): nat {
    |p.frames| + if p.Inside? && !Stuck(p) then 1 else 0
  }

  /** The stream stands at q, behind n of the octets of `rest`; of the frames expected some
      are saved and the others are expected still. */
  ghost predicate Arrives(rest: Bytes, remaining: nat, e: seq<Bytes>, q: Place, o: Outcome, n: nat,
                          saved: nat, c: Config, end: nat, ends: set<nat>) {
    && Possible(q) && Stands(o.next, q) && o.ret == 0
    && n <= |rest| && (Stuck(q) || Rest(q, c) == rest[n..])
    && |o.frames| + Remaining(q) <= remaining
    && Spares(q, end, saved + |o.frames|, c, ends)
    && e == o.frames + Expected(q, end, saved + |o.frames|, c, ends)
    && (Stuck(q) ==> o.frames != [] && o.frames[|o.frames| - 1] == Target(q.f, q.stamped))
  }

  /** What a chunk does: frames are saved and the stream stands at q. */
  ghost predicate Moves(p: Place, q: Place, o: Outcome, saved: nat, c: Config, chunk: Bytes, at: nat, ends: set<nat>) {
    && Possible(p) && Possible(q) && Stands(o.next, q) && o.ret == 0
    && (Stuck(p) ==> q == p && o.frames == if chunk == [] then [] else [Target(p.f, p.stamped)])
    && (!Stuck(p) ==>
          Arrives(Rest(p, c), Remaining(p), Expected(p, at, saved, c, ends), q, o, |chunk|,
                  saved, c, at + |chunk|, ends))
  }

  /** A frame saved in front of what follows. */
  lemma ArrivesThen(rest: Bytes, later: Bytes, remaining: nat, e: seq<Bytes>, q: Place, o: Outcome, n: nat, m: nat,
                    saved: nat, c: Config, end: nat, ends: set<nat>, t: Bytes)
    requires Arrives(later, remaining, e, q, o, m, saved + 1, c, end, ends)
    requires m <= n <= |rest| && rest[n..] == later[m..]
    ensures Arrives(rest, remaining + 1, [t] + e, q, Then(t, o), n, saved, c, end, ends)
  {
    hide Possible, Stands, Stuck, Rest, Remaining, Spares, Expected, Target;
    var x := Expected(q, end, saved + 1 + |o.frames|, c, ends);
    assert [t] + (o.frames + x) == [t] + o.frames + x;
  }

  /** Octets in front that are only read. */
  lemma ArrivesLater(rest: Bytes, remaining: nat, e: seq<Bytes>, q: Place, o: Outcome, o1: Outcome, n: nat, m: nat,
                     saved: nat, c: Config, end: nat, ends: set<nat>)
    requires m <= n && m <= |rest| && Arrives(rest[m..], remaining, e, q, o, n - m, saved, c, end, ends)
    requires o1 == o.(clean := o1.clean)
    ensures Arrives(rest, remaining, e, q, o1, n, saved, c, end, ends)
  {
    hide Possible, Stands, Stuck, Rest, Remaining, Spares, Expected, Target;
    assert rest[m..][n - m..] == rest[n..];
  }

  predicate Meets(s: Stream, p: Place, saved: nat, c: Config, chunk: Bytes, at: nat, ends: set<nat>) {
    && Valid(s, saved, c) && c.session < Varint.LIMIT
    && Possible(p) && Stands(s, p) && (Stuck(p) || chunk <= Rest(p, c))
    && NextEnd(at, |chunk|, ends) && Spares(p, at, saved, c, ends)
  }

  lemma LongPrefix(a: Bytes, b: Bytes, chunk: Bytes)
    requires chunk <= a + b && |a| <= |chunk|
    ensures chunk == a + chunk[|a|..] && chunk[|a|..] <= b && (a + b)[|chunk|..] == b[|chunk| - |a|..]
  {
  }

  lemma ShortPrefix(a: Bytes, b: Bytes, chunk: Bytes)
    requires chunk <= a + b && |chunk| <= |a|
    ensures chunk <= a && (a + b)[|chunk|..] == a[|chunk|..] + b
  {
  }

  lemma NoOctets(s: Stream, p: Place, saved: nat, c: Config, at: nat, ends: set<nat>)
    requires Meets(s, p, saved, c, [], at, ends)
    ensures Moves(p, p, Handle(s, saved, c, []), saved, c, [], at, ends)
  {
    HandleNothing(s, saved, c);
    hide Handle;
    assert [] + Expected(p, at, saved, c, ends) == Expected(p, at, saved, c, ends);
    assert Rest(p, c)[0..] == Rest(p, c);
  }

  /** Part of what the frame still needs. */
  lemma SomePayload(s: Stream, p: Place, saved: nat, c: Config, chunk: Bytes, at: nat, ends: set<nat>)
    returns (q: Place)
    requires Meets(s, p, saved, c, chunk, at, ends) && p.Inside?
    requires p.done + |chunk| < |Target(p.f, p.stamped)|
    ensures Moves(p, q, Receive(s, saved, c, chunk), saved, c, chunk, at, ends)
  {
    hide Receive, SavedAs, SomeLengthCut, Wire, Varint.Encode, Varint.IsVarint;
    var t := Target(p.f, p.stamped);
    var left := t[p.done..];
    ShortPrefix(left, Wire(p.frames), chunk);
    ReceiveShort(s, saved, c, chunk);
    q := p.(done := p.done + |chunk|);
    assert t[..p.done] + chunk == t[..q.done];
    assert left[|chunk|..] == t[q.done..];
    var e := Expected(q, at + |chunk|, saved, c, ends);
    assert [] + e == e;
  }

  /** The rest of the last wanted frame. */
  lemma LastPayload(s: Stream, p: Place, saved: nat, c: Config, chunk: Bytes, at: nat, ends: set<nat>)
    returns (q: Place)
    requires Meets(s, p, saved, c, chunk, at, ends) && p.Inside? && !Stuck(p)
    requires p.done + |chunk| >= |Target(p.f, p.stamped)| && Reached(c, saved + 1)
    ensures Moves(p, q, Receive(s, saved, c, chunk), saved, c, chunk, at, ends)
  {
    hide Receive, SavedAs, SomeLengthCut, Wire, Varint.Encode, Varint.IsVarint;
    var t := Target(p.f, p.stamped);
    var left := t[p.done..];
    LongPrefix(left, Wire(p.frames), chunk);
    ReceiveFull(s, saved, c, chunk);
    q := p.(done := |t|);
    assert chunk[..|left|] == left && t[..p.done] + left == t && t[..|t|] == t;
    assert [t] + [] == [t];
  }

  /** The rest of a frame, when more are wanted: what follows stands between frames. */
  lemma FullPayload(s: Stream, p: Place, saved: nat, c: Config, chunk: Bytes, at: nat, ends: set<nat>)
    requires Meets(s, p, saved, c, chunk, at, ends) && p.Inside? && !Stuck(p)
    requires p.done + |chunk| >= |Target(p.f, p.stamped)| && !Reached(c, saved + 1)
    ensures var t := Target(p.f, p.stamped);
            var n := |t| - p.done;
            && Valid(READY, saved + 1, c) && Meets(READY, Gap(p.frames), saved + 1, c, chunk[n..], at + n, ends)
            && Receive(s, saved, c, chunk) == Then(t, Handle(READY, saved + 1, c, chunk[n..]))
            && Rest(p, c)[|chunk|..] == Wire(p.frames)[|chunk| - n..]
  {
    hide Receive, Handle, SavedAs, SomeLengthCut, Wire, Varint.Encode, Varint.IsVarint;
    var t := Target(p.f, p.stamped);
    var left := t[p.done..];
    LongPrefix(left, Wire(p.frames), chunk);
    ReceiveFull(s, saved, c, chunk);
    assert chunk[..|left|] == left && t[..p.done] + left == t;
  }

  lemma ThenMoves(p: Place, q: Place, o: Outcome, saved: nat, c: Config, chunk: Bytes, at: nat, ends: set<nat>)
    requires Possible(p) && p.Inside? && !Stuck(p) && !Reached(c, saved + 1)
    requires var n := |Target(p.f, p.stamped)| - p.done;
             && n <= |chunk| <= |Rest(p, c)|
             && Rest(p, c)[|chunk|..] == Wire(p.frames)[|chunk| - n..]
             && Moves(Gap(p.frames), q, o, saved + 1, c, chunk[n..], at + n, ends)
    ensures Moves(p, q, Then(Target(p.f, p.stamped), o), saved, c, chunk, at, ends)
  {
    hide SavedAs, SomeLengthCut, Wire, Varint.Encode, Varint.IsVarint, StreamHeader, AllSendable, Arrives;
    var t := Target(p.f, p.stamped);
    var n := |t| - p.done;
    var g := Gap(p.frames);
    var e := Expected(g, at + n, saved + 1, c, ends);
    assert Expected(p, at, saved, c, ends) == [t] + e && Remaining(p) == Remaining(g) + 1;
    ArrivesThen(Rest(p, c), Wire(p.frames), Remaining(g), e, q, o, |chunk|, |chunk| - n,
                saved, c, at + |chunk|, ends, t);
    MovesPossible(g, q, o, saved + 1, c, chunk[n..], at + n, ends);
  }

  lemma MovesPossible(p: Place, q: Place, o: Outcome, saved: nat, c: Config, chunk: Bytes, at: nat, ends: set<nat>)
    requires Moves(p, q, o, saved, c, chunk, at, ends)
    ensures Possible(q) && Stands(o.next, q) && o.ret == 0
  {
  }

  lemma {:induction false} FromInside(s: Stream, p: Place, saved: nat, c: Config, chunk: Bytes, at: nat, ends: set<nat>)
    returns (q: Place)
    requires Meets(s, p, saved, c, chunk, at, ends) && p.Inside? && !Stuck(p)
    ensures Moves(p, q, Receive(s, saved, c, chunk), saved, c, chunk, at, ends)
    decreases |chunk|, 0
  {
    hide *;
    MeetsFits(s, p, saved, c, chunk, at, ends);
    var n := |Target(p.f, p.stamped)| - p.done;
    if |chunk| < n {
      q := SomePayload(s, p, saved, c, chunk, at, ends);
    } else if Reached(c, saved + 1) {
      q := LastPayload(s, p, saved, c, chunk, at, ends);
    } else {
      FullPayload(s, p, saved, c, chunk, at, ends);
      q := FromGap(READY, Gap(p.frames), saved + 1, c, chunk[n..], at + n, ends);
      ThenMoves(p, q, Handle(READY, saved + 1, c, chunk[n..]), saved, c, chunk, at, ends);
    }
  }

  lemma MeetsFits(s: Stream, p: Place, saved: nat, c: Config, chunk: Bytes, at: nat, ends: set<nat>)
    requires Meets(s, p, saved, c, chunk, at, ends) && (p.Inside? ==> !Stuck(p))
    ensures Valid(s, saved, c) && Possible(p) && |chunk| <= |Rest(p, c)|
    ensures p.Inside? ==> p.done < |Target(p.f, p.stamped)|
  {
  }

  /** The parts of a frame in front of the others. */
  lemma WireParts(frames: seq<Timed>)
    requires frames != []
    ensures var f := frames[0];
            Wire(frames) == Varint.Encode(Total(f)) + (f.pts + (f.payload + Wire(frames[1..])))
  {
    hide Varint.Encode;
    var f, w := frames[0], Wire(frames[1..]);
    var e := Varint.Encode(Total(f));
    assert e + (f.pts + f.payload) + w == e + (f.pts + (f.payload + w));
  }

  /** Behind its length, or behind its stamp, a frame is what is saved of it. */
  lemma RestOpens(p: Place, r: Place, c: Config, n: nat)
    requires Possible(p) && p.Gap? && p.frames != []
    requires r.Inside? && r == Inside(p.frames[0], r.stamped, 0, p.frames[1..])
    requires n == LengthOf(r.f) + if r.stamped then |r.f.pts| else 0
    ensures Possible(r) && !Stuck(r) && n <= |Rest(p, c)| && Rest(p, c)[n..] == Rest(r, c)
  {
    hide Varint.Encode, Wire;
    var f := r.f;
    assert Sendable(f) && |f.pts| > 0;
    WireParts(p.frames);
    var w := Wire(r.frames);
    assert Target(f, r.stamped)[0..] == Target(f, r.stamped);
    assert f.pts + (f.payload + w) == f.pts + f.payload + w;
  }

  /** The first octets of a frame: its length is there, and its stamp is when no chunk ends in it. */
  lemma OpenPlace(s: Stream, p: Place, saved: nat, c: Config, chunk: Bytes, at: nat, ends: set<nat>)
    returns (open: Stream, r: Place, n: nat)
    requires Meets(s, p, saved, c, chunk, at, ends) && p.Gap? && chunk != []
    ensures p.frames != [] && r == Inside(p.frames[0], !StampCut(p.frames[0], at, ends), 0, p.frames[1..])
    ensures n == LengthOf(r.f) + (if r.stamped then |r.f.pts| else 0) && 0 < n <= |chunk|
    ensures Meets(open, r, saved, c, chunk[n..], at + n, ends) && !Stuck(r)
    ensures Valid(open, saved, c) && open.headerOk && open.framing
    ensures var o := Handle(s, saved, c, chunk); o == Receive(open, saved, c, chunk[n..]).(clean := o.clean)
  {
    hide *;
    MeetsGap(s, p, saved, c, chunk, at, ends);
    GapFits(p, saved, c, chunk, at, ends);
    var f := p.frames[0];
    var b := chunk[LengthOf(f)..];
    ReadStamp(f, b, Wire(p.frames[1..]));
    PayloadNeeded(f);
    OpenFrame(s, saved, c, Total(f), b);
    r := Inside(f, |b| >= |f.pts|, 0, p.frames[1..]);
    var m := if r.stamped then |f.pts| else 0;
    n := LengthOf(f) + m;
    open := Stream(true, true, Total(f), m, []);
    assert b[m..] == chunk[n..];
    OpenMeets(p, r, saved, c, chunk, n, at, ends);
  }

  lemma MeetsGap(s: Stream, p: Place, saved: nat, c: Config, chunk: Bytes, at: nat, ends: set<nat>)
    requires Meets(s, p, saved, c, chunk, at, ends) && p.Gap?
    ensures Valid(s, saved, c) && c.session < Varint.LIMIT && Possible(p) && Between(s) && chunk <= Rest(p, c)
    ensures NextEnd(at, |chunk|, ends) && Spares(p, at, saved, c, ends)
  {
  }

  lemma PayloadNeeded(f: Timed)
    requires Sendable(f)
    ensures 0 < |f.pts| && 0 < |f.payload| && 0 < Total(f) <= 0x200_0000
  {
  }

  lemma OpenMeets(p: Place, r: Place, saved: nat, c: Config, chunk: Bytes, n: nat, at: nat, ends: set<nat>)
    requires Possible(p) && p.Gap? && p.frames != [] && c.session < Varint.LIMIT
    requires r.Inside? && r == Inside(p.frames[0], r.stamped, 0, p.frames[1..])
    requires n == LengthOf(r.f) + if r.stamped then |r.f.pts| else 0
    requires n <= |chunk| && chunk <= Rest(p, c) && NextEnd(at, |chunk|, ends)
    requires r.stamped <==> |chunk| >= LengthOf(r.f) + |r.f.pts|
    requires |Varint.Encode(Total(r.f))| > 0
    requires Reached(c, saved + 1) || !SomeLengthCut(r.frames, at + LengthOf(r.f) + Total(r.f), saved + 1, c, ends)
    ensures var open := Stream(true, true, Total(r.f), if r.stamped then |r.f.pts| else 0, []);
            && Valid(open, saved, c) && Meets(open, r, saved, c, chunk[n..], at + n, ends) && !Stuck(r)
    ensures r.stamped == !StampCut(r.f, at, ends)
  {
    hide Varint.Encode, Varint.IsVarint, Wire, SomeLengthCut;
    RestOpens(p, r, c, n);
    assert chunk[n..] <= Rest(p, c)[n..];
    assert Target(r.f, r.stamped)[..0] == [];
    assert at + |chunk| in ends;
  }

  /** The chunk has the whole length in it. */
  lemma GapFits(p: Place, saved: nat, c: Config, chunk: Bytes, at: nat, ends: set<nat>)
    requires Possible(p) && p.Gap? && chunk != [] && chunk <= Rest(p, c)
    requires NextEnd(at, |chunk|, ends) && Spares(p, at, saved, c, ends)
    ensures p.frames != [] && var f := p.frames[0];
            && Sendable(f) && 0 < LengthOf(f) <= |chunk|
            && chunk == Varint.Encode(Total(f)) + chunk[LengthOf(f)..]
            && chunk[LengthOf(f)..] <= f.pts + (f.payload + Wire(p.frames[1..]))
            && (Reached(c, saved + 1) || !SomeLengthCut(p.frames[1..], at + LengthOf(f) + Total(f), saved + 1, c, ends))
  {
    hide Varint.Encode, Varint.IsVarint, Wire, SomeLengthCut;
    assert p.frames != [] by { WireNone(); }
    var f := p.frames[0];
    assert Sendable(f);
    NoLengthCut(p.frames, at, saved, c, ends);
    assert at + |chunk| in ends;
    WireParts(p.frames);
    LongPrefix(Varint.Encode(Total(f)), f.pts + (f.payload + Wire(p.frames[1..])), chunk);
  }

  lemma WireNone()
    ensures Wire([]) == []
  {
  }

  lemma NoLengthCut(frames: seq<Timed>, at: nat, saved: nat, c: Config, ends: set<nat>)
    requires frames != [] && !SomeLengthCut(frames, at, saved, c, ends)
    ensures forall k | k in ends :: !(at < k < at + LengthOf(frames[0]))
    ensures var next := at + LengthOf(frames[0]) + Total(frames[0]);
            Reached(c, saved + 1) || !SomeLengthCut(frames[1..], next, saved + 1, c, ends)
  {
    hide Varint.Encode;
  }

  /** The octets behind a length: the stamp is read when all of it is there. */
  lemma ReadStamp(f: Timed, b: Bytes, w: Bytes)
    requires Sendable(f) && b <= f.pts + (f.payload + w)
    ensures PtsLength(b) == if |b| >= |f.pts| then |f.pts| else 0
  {
    hide Varint.Parse, Varint.Value;
    if |b| >= |f.pts| {
      LongPrefix(f.pts, f.payload + w, b);
      Varint.VarintParses(f.pts, b[|f.pts|..]);
    } else {
      ShortPrefix(f.pts, f.payload + w, b);
      PartOfVarint(f.pts, |b|);
      assert b == f.pts[..|b|];
    }
  }

  lemma {:induction false} FromGap(s: Stream, p: Place, saved: nat, c: Config, chunk: Bytes, at: nat, ends: set<nat>)
    returns (q: Place)
    requires Meets(s, p, saved, c, chunk, at, ends) && p.Gap?
    ensures Moves(p, q, Handle(s, saved, c, chunk), saved, c, chunk, at, ends)
    decreases |chunk|, 1
  {
    hide *;
    MeetsFits(s, p, saved, c, chunk, at, ends);
    if chunk == [] {
      NoOctets(s, p, saved, c, at, ends);
      return p;
    }
    var open, r, n := OpenPlace(s, p, saved, c, chunk, at, ends);
    q := FromInside(open, r, saved, c, chunk[n..], at + n, ends);
    GapMoves(p, r, q, Receive(open, saved, c, chunk[n..]), Handle(s, saved, c, chunk), saved, c, chunk, n, at, ends);
  }

  lemma GapMoves(p: Place, r: Place, q: Place, o: Outcome, o1: Outcome, saved: nat, c: Config, chunk: Bytes, n: nat,
                 at: nat, ends: set<nat>)
    requires Possible(p) && p.Gap? && p.frames != [] && o1 == o.(clean := o1.clean) && |chunk| <= |Rest(p, c)|
    requires r == Inside(p.frames[0], !StampCut(p.frames[0], at, ends), 0, p.frames[1..])
    requires n == LengthOf(r.f) + (if r.stamped then |r.f.pts| else 0) && n <= |chunk|
    requires !Stuck(r) && Moves(r, q, o, saved, c, chunk[n..], at + n, ends)
    ensures Moves(p, q, o1, saved, c, chunk, at, ends)
  {
    hide StampCut, Varint.Encode, Varint.IsVarint, SomeLengthCut, Stands, Spares, Wire, Arrives;
    RestOpens(p, r, c, n);
    var e := Expected(p, at, saved, c, ends);
    assert e == Expected(r, at + n, saved, c, ends) && Remaining(p) == Remaining(r);
    hide Expected, Rest, Remaining, Possible;
    ArrivesLater(Rest(p, c), Remaining(p), e, q, o, o1, |chunk|, n, saved, c, at + |chunk|, ends);
  }

  lemma FromStart(p: Place, saved: nat, c: Config, chunk: Bytes, at: nat, ends: set<nat>) returns (q: Place)
    requires Meets(NEW, p, saved, c, chunk, at, ends) && p.Start? && chunk != []
    ensures Moves(p, q, Handle(NEW, saved, c, chunk), saved, c, chunk, at, ends)
  {
    hide Handle, ReadHeader, StreamHeader, Wire, SomeLengthCut, SavedAs;
    var h, w := StreamHeader(c.session), Wire(p.frames);
    assert at + |chunk| in ends;
    LongPrefix(h, w, chunk);
    var tail := chunk[|h|..];
    HeaderParses(c.session, tail);
    HandleHeader(saved, c, chunk);
    SomeHeader(c.session);
    q := FromGap(OPEN, Gap(p.frames), saved, c, tail, at + |h|, ends);
  }

  lemma FromStuck(s: Stream, p: Place, saved: nat, c: Config, chunk: Bytes, at: nat, ends: set<nat>)
    requires Meets(s, p, saved, c, chunk, at, ends) && Stuck(p) && chunk != []
    ensures Moves(p, p, Handle(s, saved, c, chunk), saved, c, chunk, at, ends)
  {
    hide Handle, Wire, SomeLengthCut, SavedAs;
    var t := Target(p.f, p.stamped);
    assert t[..|t|] == t;
    LastFrameIsSavedAgain(s, saved, c, chunk);
  }

  lemma OneChunk(s: Stream, p: Place, saved: nat, c: Config, chunk: Bytes, at: nat, ends: set<nat>) returns (q: Place)
    requires Meets(s, p, saved, c, chunk, at, ends)
    ensures Moves(p, q, Handle(s, saved, c, chunk), saved, c, chunk, at, ends)
  {
    hide Handle, Receive, Moves, Wire, SomeLengthCut, SavedAs;
    if chunk == [] {
      NoOctets(s, p, saved, c, at, ends);
      q := p;
    } else if p.Start? {
      q := FromStart(p, saved, c, chunk, at, ends);
    } else if p.Gap? {
      q := FromGap(s, p, saved, c, chunk, at, ends);
    } else if Stuck(p) {
      FromStuck(s, p, saved, c, chunk, at, ends);
      q := p;
    } else {
      HandleFraming(s, saved, c, chunk);
      q := FromInside(s, p, saved, c, chunk, at, ends);
    }
  }

  // -------------------------------------------------------------- all chunks

  /** The octets at which chunks begin or end, the first chunk beginning at `at`. */
  function Ends(chunks: seq<Bytes>, at: nat): set<nat>
    decreases |chunks|
  {
    {at} + if chunks == [] then {} else Ends(chunks[1..], at + |chunks[0]|)
  }

  lemma {:induction false} EndsAreLater(chunks: seq<Bytes>, at: nat)
    ensures forall k | k in Ends(chunks, at) :: k >= at
    ensures at in Ends(chunks, at)
    decreases |chunks|
  {
    if chunks != [] { EndsAreLater(chunks[1..], at + |chunks[0]|); }
  }

  /** They are the lengths of the first chunks put together. */
  lemma {:induction false} EndsAreLengths(chunks: seq<Bytes>, at: nat, k: nat)
    ensures k in Ends(chunks, at) <==> exists i | 0 <= i <= |chunks| :: k == at + |Join(chunks[..i])|
    decreases |chunks|
  {
    assert chunks[..0] == [];
    assert at == at + |Join(chunks[..0])|;
    if chunks != [] {
      var rest, next := chunks[1..], at + |chunks[0]|;
      EndsAreLengths(rest, next, k);
      forall i | 0 <= i <= |rest| ensures at + |Join(chunks[..i + 1])| == next + |Join(rest[..i])| {
        assert chunks[..i + 1][1..] == rest[..i];
      }
      if i :| 0 <= i <= |rest| && k == next + |Join(rest[..i])| { assert k == at + |Join(chunks[..i + 1])|; }
      if i :| 0 < i <= |chunks| && k == at + |Join(chunks[..i])| { assert k == next + |Join(rest[..i - 1])|; }
    }
  }

  predicate EndsFrom(chunks: seq<Bytes>, at: nat, ends: set<nat>) {
    Ends(chunks, at) <= ends && forall k | k in ends && k >= at :: k in Ends(chunks, at)
  }

  lemma EndsFromNext(chunks: seq<Bytes>, at: nat, ends: set<nat>)
    requires EndsFrom(chunks, at, ends) && chunks != []
    ensures NextEnd(at, |chunks[0]|, ends) && EndsFrom(chunks[1..], at + |chunks[0]|, ends)
  {
    var next := at + |chunks[0]|;
    EndsAreLater(chunks[1..], next);
    assert Ends(chunks, at) == {at} + Ends(chunks[1..], next);
  }

  /** What was saved: the expected frames first, then the last of them over and over. */
  ghost predicate Saves(p: Place, frames: seq<Bytes>, e: seq<Bytes>) {
    && e <= frames
    && (frames != [] && e == [] ==> Stuck(p))
    && forall j | |e| <= j < |frames| ::
         frames[j] == if e != [] then e[|e| - 1] else Target(p.f, p.stamped)
  }

  lemma SavesOn(p: Place, q: Place, first: seq<Bytes>, frames: seq<Bytes>, e: seq<Bytes>)
    requires Saves(q, frames, e) && !Stuck(p)
    requires Stuck(q) ==> first != [] && first[|first| - 1] == Target(q.f, q.stamped)
    ensures Saves(p, first + frames, first + e)
  {
    var all, want := first + frames, first + e;
    assert all[..|want|] == first + frames[..|e|] == want;
    if |want| < |all| {
      assert frames[|e|] == frames[|want| - |first|];
      assert want != [];
      forall j | |want| <= j < |all| ensures all[j] == want[|want| - 1] {
        assert all[j] == frames[j - |first|];
      }
    }
  }

  /** A stream that stands at p and what is to come of it. */
  predicate Awaits(s: Stream, p: Place, saved: nat, c: Config, chunks: seq<Bytes>, at: nat, ends: set<nat>) {
    && Valid(s, saved, c) && c.session < Varint.LIMIT && Possible(p) && Stands(s, p)
    && (Stuck(p) || Join(chunks) == Rest(p, c))
    && EndsFrom(chunks, at, ends) && Spares(p, at, saved, c, ends)
  }

  /** All of it comes: the expected frames are saved, then, behind the limit, the last one again. */
  ghost predicate Delivers(p: Place, o: Outcome, saved: nat, c: Config, at: nat, ends: set<nat>)
    requires Possible(p)
  {
    && o.ret == 0 && Saves(p, o.frames, Expected(p, at, saved, c, ends))
    && (!Reached(c, saved + Remaining(p)) ==> o.frames == Expected(p, at, saved, c, ends))
  }

  /** The whole rest of a stream, chunk after chunk. */
  lemma {:induction false} AllChunks(s: Stream, p: Place, saved: nat, c: Config, chunks: seq<Bytes>, at: nat,
                                     ends: set<nat>)
    requires Awaits(s, p, saved, c, chunks, at, ends)
    ensures Valid(s, saved, c) && Possible(p) && Delivers(p, HandleAll(s, saved, c, chunks), saved, c, at, ends)
    decreases |chunks|
  {
    hide *;
    AwaitsFacts(s, p, saved, c, chunks, at, ends);
    if chunks == [] {
      NothingRemains(s, p, saved, c, at, ends);
    } else {
      AwaitsMeets(s, p, saved, c, chunks, at, ends);
      var q := OneChunk(s, p, saved, c, chunks[0], at, ends);
      var o := Handle(s, saved, c, chunks[0]);
      MovesAwaits(p, q, o, saved, c, chunks, at, ends);
      AllChunks(o.next, q, saved + |o.frames|, c, chunks[1..], at + |chunks[0]|, ends);
      HandleAllStep(s, saved, c, chunks);
      EndsStep(p, q, o, HandleAll(o.next, saved + |o.frames|, c, chunks[1..]), saved, c, chunks[0], at, ends);
    }
  }

  lemma AwaitsFacts(s: Stream, p: Place, saved: nat, c: Config, chunks: seq<Bytes>, at: nat, ends: set<nat>)
    requires Awaits(s, p, saved, c, chunks, at, ends)
    ensures Valid(s, saved, c) && Possible(p) && c.session < Varint.LIMIT
    ensures (Stuck(p) || Join(chunks) == Rest(p, c)) && EndsFrom(chunks, at, ends)
    ensures Stuck(p) ==> Reached(c, saved)
  {
    if p.Inside? { PayloadNeeded(p.f); }
  }

  lemma HandleAllStep(s: Stream, saved: nat, c: Config, chunks: seq<Bytes>)
    requires Valid(s, saved, c) && chunks != []
    ensures var o := Handle(s, saved, c, chunks[0]);
            HandleAll(s, saved, c, chunks) == After(o, HandleAll(o.next, saved + |o.frames|, c, chunks[1..]))
  {
    hide Handle;
  }

  lemma NothingRemains(s: Stream, p: Place, saved: nat, c: Config, at: nat, ends: set<nat>)
    requires Awaits(s, p, saved, c, [], at, ends)
    ensures Valid(s, saved, c) && Possible(p) && Delivers(p, HandleAll(s, saved, c, []), saved, c, at, ends)
  {
    hide Varint.Encode, Handle;
    SomeHeader(c.session);
    if p.frames != [] {
      assert Sendable(p.frames[0]);
      WireLength(p.frames[0]);
    }
  }

  lemma AwaitsMeets(s: Stream, p: Place, saved: nat, c: Config, chunks: seq<Bytes>, at: nat, ends: set<nat>)
    requires Awaits(s, p, saved, c, chunks, at, ends) && chunks != []
    ensures Meets(s, p, saved, c, chunks[0], at, ends)
  {
    hide Valid, Stands, Spares, Rest, Ends;
    EndsFromNext(chunks, at, ends);
    assert chunks[0] <= Join(chunks);
  }

  lemma MovesAwaits(p: Place, q: Place, o: Outcome, saved: nat, c: Config, chunks: seq<Bytes>, at: nat, ends: set<nat>)
    requires Possible(p) && chunks != [] && Moves(p, q, o, saved, c, chunks[0], at, ends)
    requires Valid(o.next, saved + |o.frames|, c) && c.session < Varint.LIMIT
    requires (Stuck(p) || Join(chunks) == Rest(p, c)) && EndsFrom(chunks, at, ends)
    ensures Awaits(o.next, q, saved + |o.frames|, c, chunks[1..], at + |chunks[0]|, ends)
  {
    hide Valid, Stands, Rest, Ends, SavedAs, SomeLengthCut, Varint.Encode;
    EndsFromNext(chunks, at, ends);
    assert Join(chunks)[|chunks[0]|..] == Join(chunks[1..]);
  }

  lemma EndsStep(p: Place, q: Place, o: Outcome, rest: Outcome, saved: nat, c: Config, chunk: Bytes, at: nat,
                 ends: set<nat>)
    requires Moves(p, q, o, saved, c, chunk, at, ends)
    requires Delivers(q, rest, saved + |o.frames|, c, at + |chunk|, ends) && (Stuck(p) ==> Reached(c, saved))
    ensures Delivers(p, After(o, rest), saved, c, at, ends)
  {
    hide Rest, SavedAs, SomeLengthCut, Varint.Encode, Stands, Spares, Target;
    var first, later := o.frames, rest.frames;
    if Stuck(p) {
      assert Expected(p, at, saved, c, ends) == [];
      hide Expected;
    } else {
      var e := Expected(q, at + |chunk|, saved + |first|, c, ends);
      hide Expected, Stuck;
      SavesOn(p, q, first, later, e);
      hide Saves;
    }
  }

  // -------------------------------------------------------------- the results

  /** A stream with the client's session, cut into chunks so that none ends inside the
      header or the length of a wanted frame: each wanted frame is saved, without its time
      stamp if the stamp arrived with the length and with it otherwise; behind the limit
      the last one is saved again and again. So the payloads are saved if and only if no
      chunk ends between a length and the end of its stamp. */
  lemma SavedForAnyCut(c: Config, frames: seq<Timed>, chunks: seq<Bytes>)
    requires c.session < Varint.LIMIT && AllSendable(frames) && Join(chunks) == StreamWire(c.session, frames)
    requires Spares(Start(frames), 0, 0, c, Ends(chunks, 0))
    ensures var o, ends, h := HandleAll(NEW, 0, c, chunks), Ends(chunks, 0), |StreamHeader(c.session)|;
            var e := SavedAs(frames, h, 0, c, ends);
            && o.ret == 0 && Repeats(o.frames, e)
            && (!Reached(c, |frames|) ==> o.frames == e)
            && (e == Wanted(frames, 0, c) <==> !SomeStampCut(frames, h, 0, c, ends))
  {
    hide HandleAll, SavedAs, Wanted, SomeStampCut, Spares, StreamHeader, Wire, Ends;
    var ends := Ends(chunks, 0);
    var p := Start(frames);
    AllChunks(NEW, p, 0, c, chunks, 0, ends);
    SavesRepeats(p, HandleAll(NEW, 0, c, chunks).frames, SavedAs(frames, |StreamHeader(c.session)|, 0, c, ends));
    SavedAsWanted(frames, |StreamHeader(c.session)|, 0, c, ends);
  }

  /** Behind the expected frames the last of them, again and again. */
  ghost predicate Repeats(frames: seq<Bytes>, e: seq<Bytes>) {
    && e <= frames && (frames != [] ==> e != [])
    && forall j | |e| <= j < |frames| :: frames[j] == e[|e| - 1]
  }

  lemma SavesRepeats(p: Place, frames: seq<Bytes>, e: seq<Bytes>)
    requires Saves(p, frames, e) && !Stuck(p)
    ensures Repeats(frames, e)
  {
  }

  /** The wanted frames are the first ones, as many as the limit says. */
  lemma {:induction false} WantedAreFirst(frames: seq<Timed>, saved: nat, c: Config)
    requires !Reached(c, saved)
    ensures Wanted(frames, saved, c)
         == Payloads(if c.maxFrames > 0 && c.maxFrames - saved < |frames| then frames[..c.maxFrames - saved]
                     else frames)
    decreases |frames|
  {
    if frames != [] {
      var n := if c.maxFrames > 0 && c.maxFrames - saved < |frames| then c.maxFrames - saved else |frames|;
      var some := frames[..n];
      assert some[0] == frames[0] && some[1..] == frames[1..][..n - 1];
      assert frames[..|frames|] == frames && frames[1..][..|frames| - 1] == frames[1..];
      if Reached(c, saved + 1) {
        assert some[1..] == [];
      } else {
        WantedAreFirst(frames[1..], saved + 1, c);
      }
    }
  }

  /** A run that shows what happens behind the limit: the client wants one frame, gets it in
      one chunk, and saves it a second time when another chunk comes, whatever is in it. */
  lemma OneFrameIsSavedTwice(c: Config, f: Timed, more: Bytes)
    requires c.session < Varint.LIMIT && c.maxFrames == 1 && Sendable(f) && more != []
    ensures HandleAll(NEW, 0, c, [StreamWire(c.session, [f]), more]).frames == [f.payload, f.payload]
  {
    hide Handle, StreamHeader, FrameWire, HandleAll;
    var first := StreamWire(c.session, [f]);
    assert [f][1..] == [];
    assert first == StreamHeader(c.session) + FrameWire(f) && Wire([f]) == FrameWire(f);
    SomeHeader(c.session);
    HeaderParses(c.session, FrameWire(f));
    HandleHeader(0, c, first);
    assert first[|StreamHeader(c.session)|..] == FrameWire(f);
    LastFrameStays(0, c, f);
    TwoChunks(NEW, 0, c, first, more);
    var s := Handle(NEW, 0, c, first).next;
    LastFrameIsSavedAgain(s, 1, c, more);
    assert [f.payload] + [f.payload] == [f.payload, f.payload];
  }

  /** The last wanted frame in one chunk. */
  lemma LastFrameStays(saved: nat, c: Config, f: Timed)
    requires Sendable(f) && Reached(c, saved + 1)
    ensures var o := Handle(OPEN, saved, c, FrameWire(f));
            && o.next == Stream(true, true, Total(f), |f.pts|, f.payload) && o.frames == [f.payload]
  {
    hide Varint.Encode, Varint.Parse, Handle, Receive, Sendable;
    PayloadNeeded(f);
    assert f.pts + (f.payload + []) == f.pts + f.payload;
    ReadStamp(f, f.pts + f.payload, []);
    OpenFrame(OPEN, saved, c, Total(f), f.pts + f.payload);
    assert (f.pts + f.payload)[|f.pts|..] == f.payload && f.payload[..|f.payload|] == f.payload;
    ReceiveFull(Stream(true, true, Total(f), |f.pts|, []), saved, c, f.payload);
    assert [] + f.payload == f.payload;
  }

  /** One frame cut anywhere behind its length: it is saved as its payload if and only if
      its stamp arrived with the length; otherwise the stamp is saved in front of it. */
  lemma FrameCutAnywhere(s: Stream, saved: nat, c: Config, f: Timed, k: nat, rest: Bytes)
    requires Between(s) && Sendable(f) && !Reached(c, saved + 1) && k < Total(f)
    ensures var body := f.pts + f.payload;
            var o := Handle(s, saved, c, Varint.Encode(Total(f)) + body[..k]);
            && o.frames == []
            && Handle(o.next, saved, c, body[k..] + rest)
               == Then(if k < |f.pts| then body else f.payload, Handle(READY, saved + 1, c, rest))
    ensures (if k < |f.pts| then f.pts + f.payload else f.payload) == f.payload <==> k >= |f.pts|
  {
    hide Varint.Encode, Handle, Receive, Sendable;
    PayloadNeeded(f);
    var body := f.pts + f.payload;
    var b := body[..k];
    assert f.pts + (f.payload + []) == body;
    ReadStamp(f, b, []);
    OpenFrame(s, saved, c, Total(f), b);
    var n := if k < |f.pts| then 0 else |f.pts|;
    var open := Stream(true, true, Total(f), n, []);
    ReceiveShort(open, saved, c, b[n..]);
    assert [] + b[n..] == b[n..];
    FrameGoesOn(open.(got := b[n..]), saved, c, body, n, k, rest);
    assert body[0..] == body && body[|f.pts|..] == f.payload;
  }

  /** The rest of a frame of which the octets n to k - 1 are stored. */
  lemma FrameGoesOn(half: Stream, saved: nat, c: Config, body: Bytes, n: nat, k: nat, rest: Bytes)
    requires n <= k < |body| <= 0x200_0000 && !Reached(c, saved + 1)
    requires half == Stream(true, true, |body|, n, body[..k][n..])
    ensures Valid(half, saved, c)
    ensures Handle(half, saved, c, body[k..] + rest) == Then(body[n..], Handle(READY, saved + 1, c, rest))
  {
    hide Handle, Receive;
    var tail := body[k..] + rest;
    HandleFraming(half, saved, c, tail);
    ReceiveFull(half, saved, c, tail);
    assert body[..k][n..] + tail[..|body| - k] == body[n..];
    assert tail[|body| - k..] == rest;
  }

  /** This server sends no time stamps. Of a frame longer than a varint that starts like it,
      the client takes that many octets for the stamp, when they arrive with the length. */
  lemma ServerFrameCutAnywhere(s: Stream, saved: nat, c: Config, frame: Bytes, k: nat, rest: Bytes)
    requires Between(s) && frame != [] && Varint.Length(frame[0]) < |frame| <= 0x200_0000
    requires !Reached(c, saved + 1) && k < |frame|
    ensures var o := Handle(s, saved, c, Varint.Encode(|frame|) + frame[..k]);
            && o.frames == []
            && Handle(o.next, saved, c, frame[k..] + rest)
               == Then(if k < Varint.Length(frame[0]) then frame else frame[Varint.Length(frame[0])..],
                       Handle(READY, saved + 1, c, rest))
  {
    var n := Varint.Length(frame[0]);
    var f := Timed(frame[..n], frame[n..]);
    assert Varint.IsVarint(f.pts) && f.pts + f.payload == frame;
    hide Handle, Varint.Encode;
    FrameCutAnywhere(s, saved, c, f, k, rest);
  }

  /** A picture, which starts with 0xFF, loses its first eight octets if and only if all
      eight arrive with the length; the client stays in step either way. */
  lemma ServerPictureCutAnywhere(s: Stream, saved: nat, c: Config, picture: Bytes, k: nat, rest: Bytes)
    requires Between(s) && 8 < |picture| <= 0x200_0000 && picture[0] == 0xFF && !Reached(c, saved + 1) && k < |picture|
    ensures var o := Handle(s, saved, c, Varint.Encode(|picture|) + picture[..k]);
            && o.frames == []
            && Handle(o.next, saved, c, picture[k..] + rest)
               == Then(if k < 8 then picture else picture[8..], Handle(READY, saved + 1, c, rest))
    ensures (if k < 8 then picture else picture[8..]) == picture <==> k < 8
  {
    hide Handle, Varint.Encode;
    ServerFrameCutAnywhere(s, saved, c, picture, k, rest);
  }

  /** Why the lengths must be spared: a chunk can end inside a length, whose first octet is
      then lost, and the frame may still be saved as it was sent. */
  lemma LengthCutCanBeHarmless(c: Config, y: Byte, payload: Bytes)
    requires c.session < Varint.LIMIT && !Reached(c, 1) && y < 0x40 && |payload| == 319
    ensures var f := Timed([0x40, y], payload);
            var chunks := [StreamHeader(c.session) + [0x41], [0x41, 0x40, y] + payload];
            && Sendable(f) && Join(chunks) == StreamWire(c.session, [f])
            && !HandleAll(NEW, 0, c, chunks).clean
            && HandleAll(NEW, 0, c, chunks).frames == Payloads([f])
  {
    var f := Timed([0x40, y], payload);
    var h := StreamHeader(c.session);
    var a, b: Bytes := h + [0x41], [0x41, 0x40, y] + payload;
    TwoOctets();
    assert Varint.IsVarint(f.pts);
    assert b == [0x41, 0x40] + ([y] + payload);
    hide *;
    assert [a, b][1..] == [b] && [b][1..] == [];
    HarmlessFirst(c, a);
    HarmlessSecond(c, y, payload, b);
    HarmlessWire(c, f, a, b);
  }

  lemma HarmlessFirst(c: Config, a: Bytes)
    requires c.session < Varint.LIMIT && a == StreamHeader(c.session) + [0x41]
    ensures Handle(NEW, 0, c, a) == Outcome(OPEN, [], 0, false, false)
  {
    var h := StreamHeader(c.session);
    var cut: Bytes := [0x41];
    assert Varint.Parse(cut).Incomplete?;
    hide Handle, StreamHeader, ReadHeader;
    HeaderParses(c.session, cut);
    HandleHeader(0, c, a);
    assert a[|h|..] == cut;
    HandleLength(OPEN, 0, c, cut);
  }

  lemma HarmlessSecond(c: Config, y: Byte, payload: Bytes, b: Bytes)
    requires y < 0x40 && |payload| == 319 && !Reached(c, 1) && b == [0x41, 0x40] + ([y] + payload)
    ensures Handle(OPEN, 0, c, b) == Outcome(READY, [payload], 0, false, true)
  {
    var g := Timed([y], payload);
    assert Varint.IsVarint(g.pts);
    TwoOctets();
    hide Handle, Varint.Encode, Varint.IsVarint;
    assert b == FrameWire(g) + [];
    TakeFrame(OPEN, 0, c, g, []);
    HandleNothing(READY, 1, c);
    assert [payload] + [] == [payload];
  }

  lemma HarmlessWire(c: Config, f: Timed, a: Bytes, b: Bytes)
    requires Varint.Encode(Total(f)) == [0x41, 0x41] && |f.pts| == 2 && a == StreamHeader(c.session) + [0x41]
    requires f.pts[0] == 0x40 && b == [0x41, 0x40, f.pts[1]] + f.payload
    requires Handle(NEW, 0, c, a) == Outcome(OPEN, [], 0, false, false)
    requires Handle(OPEN, 0, c, b) == Outcome(READY, [f.payload], 0, false, true)
    ensures Join([a, b]) == StreamWire(c.session, [f])
    ensures !HandleAll(NEW, 0, c, [a, b]).clean && HandleAll(NEW, 0, c, [a, b]).frames == Payloads([f])
  {
    hide Varint.Encode, Handle, StreamHeader;
    assert f.pts == [0x40, f.pts[1]];
    assert [f][1..] == [];
    assert Wire([f]) == [0x41, 0x41] + (f.pts + f.payload) + [];
    TwoChunks(NEW, 0, c, a, b);
    assert a + b == StreamWire(c.session, [f]);
  }

  lemma TwoChunks(s: Stream, saved: nat, c: Config, a: Bytes, b: Bytes)
    requires Valid(s, saved, c)
    ensures Join([a, b]) == a + b
    ensures var o := Handle(s, saved, c, a);
            var p := Handle(o.next, saved + |o.frames|, c, b);
            && HandleAll(s, saved, c, [a, b]).frames == o.frames + p.frames
            && HandleAll(s, saved, c, [a, b]).next == p.next
            && HandleAll(s, saved, c, [a, b]).clean == (o.clean && p.clean)
  {
    hide Handle, Valid;
    var none: seq<Bytes> := [];
    assert [a, b][1..] == [b] && [b][1..] == none;
    assert Join([b]) == b + Join(none);
    var o := Handle(s, saved, c, a);
    HandleAllStep(s, saved, c, [a, b]);
    HandleAllStep(o.next, saved + |o.frames|, c, [b]);
  }

  lemma TwoOctets()
    ensures Varint.Encode(321) == [0x41, 0x41] && Varint.Encode(320) == [0x41, 0x40]
  {
    Varint.EncodeIsOctets(321);
    Varint.EncodeIsOctets(320);
  }
}
