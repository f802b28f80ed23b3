/** Frames on a stream, each behind a varint with its length: how the server cuts them
    into writes and how the client, chunk by chunk, puts them together again. */
module LengthFraming {
  import opened Bytes
  import Varint

  const MTU_CHUNK_BYTES: nat := 16 * 1024

  // -------------------------------------------------------------- the server

  function Framed(frame: Bytes): Bytes {
    Varint.Encode(|frame|) + frame
  }

  function Wire(frames: seq<Bytes>): Bytes {
    if frames == [] then [] else Framed(frames[0]) + Wire(frames[1..])
  }

  /** The writes behind the first one: 16 KiB of payload each, as long as there are so many octets. */
  predicate Pieces(writes: seq<Bytes>, size: nat) {
    forall i | 0 < i < |writes| ::
      var left := size - (i - 1) * 16384; |writes[i]| == if left > 16384 then 16384 else left
  }

  /** The send loop for one frame. Write i succeeds if works(i), and before the write of
      payload i the streamer is found running if running(i). What was written is a prefix of
      the framed frame: all of it, unless a write failed or the streamer was found stopped. */
  method SendFrame(frame: array<Byte>, size: nat, works: nat -> bool, running: nat -> bool)
    returns (writes: seq<Bytes>, failed: bool)
    requires 0 < size <= frame.Length && size < Varint.LIMIT
    ensures Join(writes) <= Framed(frame[..size])
    ensures forall i | 0 <= i < |writes| :: works(i) && (i > 0 ==> running(i) && 0 < |writes[i]| <= MTU_CHUNK_BYTES)
    ensures Pieces(writes, size)
    ensures failed ==> !works(|writes|) && |Join(writes)| < |Framed(frame[..size])|
    ensures failed && writes != [] ==> running(|writes|)
    ensures !failed ==> |writes| >= 1 && (Join(writes) == Framed(frame[..size]) || !running(|writes|))
    ensures writes != [] ==> writes[0] == Varint.Encode(size)
  {
    hide Varint.Encode, Join, Pieces;
    NoPieces(size);
    var lenBuf := new Byte[8];
    var lenLen := Varint.QuicEncode(size, lenBuf, 0);
    assert lenBuf[0..lenLen] == lenBuf[..lenLen];
    writes, failed := [], false;
    ghost var whole := Framed(frame[..size]);
    JoinNone();
    if !works(0) {
      return [], true;
    }
    writes := [lenBuf[..lenLen]];
    NoPiecesYet(writes[0], size);
    JoinOne(writes[0]);
    var sent := 0;
    assert frame[..0] == [];
    while sent < size && running(|writes|)
      invariant sent <= size && !failed && Join(writes) == Varint.Encode(size) + frame[..sent]
      invariant |writes| >= 1 && writes[0] == Varint.Encode(size)
      invariant forall i | 0 <= i < |writes| :: works(i) && (i > 0 ==> running(i) && 0 < |writes[i]| <= MTU_CHUNK_BYTES)
      invariant sent < size ==> sent == (|writes| - 1) * 16384
      invariant Pieces(writes, size)
    {
      var toSend := if size - sent > MTU_CHUNK_BYTES then MTU_CHUNK_BYTES else size - sent;
      if !works(|writes|) {
        failed := true;
        break;
      }
      var chunk := frame[sent..sent + toSend];
      JoinAppend(writes, [chunk]);
      JoinOne(chunk);
      assert frame[..sent + toSend] == frame[..sent] + chunk;
      PiecesSnoc(writes, chunk, size);
      writes := writes + [chunk];
      sent := sent + toSend;
    }
    assert whole[..|Varint.Encode(size)| + sent] == Varint.Encode(size) + frame[..sent];
  }

  lemma NoPieces(size: nat)
    ensures Pieces([], size)
  {
  }

  lemma NoPiecesYet(first: Bytes, size: nat)
    ensures Pieces([first], size)
  {
  }

  lemma PiecesSnoc(writes: seq<Bytes>, chunk: Bytes, size: nat)
    requires |writes| >= 1 && Pieces(writes, size)
    requires var left := size - (|writes| - 1) * 16384; |chunk| == if left > 16384 then 16384 else left
    ensures Pieces(writes + [chunk], size)
  {
  }

  lemma JoinNone()
    ensures Join([]) == []
  {
  }

  lemma JoinOne(a: Bytes)
    ensures Join([a]) == a
  {
    assert [a][1..] == [];
  }

  // -------------------------------------------------------------- the client

  /** Between frames, or inside one. */
  datatype Receiver = Idle | Reading(size: nat, got: Bytes)

  /** What a chunk leads to. A length whose octets are not all in the chunk is dropped,
      as many octets as the chunk has of it. */
  datatype Taken = Taken(next: Receiver, frames: seq<Bytes>, dropped: nat)

  predicate Valid(r: Receiver) {
    r.Reading? ==> |r.got| < r.size < Varint.LIMIT
  }

  function Then(frames: seq<Bytes>, t: Taken): Taken {
    Taken(t.next, frames + t.frames, t.dropped)
  }

  function Take(r: Receiver, chunk: Bytes): (t: Taken)
    requires Valid(r)
    ensures Valid(t.next)
    decreases |chunk|
  {
    if chunk == [] then Taken(r, [], 0)
    else
      match r
      case Idle =>
        var p := Varint.Parse(chunk);
        if p.Incomplete? then Taken(Idle, [], |chunk|)
        else
          ParseFacts(chunk);
          Take(Opened(p.value), chunk[p.used..])
      case Reading(size, got) =>
        var left := size - |got|;
        if |chunk| < left then Taken(Reading(size, got + chunk), [], 0)
        else Then([got + chunk[..left]], Take(Idle, chunk[left..]))
  }

  /** A frame of this length begins; one of length 0 is passed over. */
  function Opened(size: nat): Receiver {
    if size == 0 then Idle else Reading(size, [])
  }

  lemma ParseFacts(s: Bytes)
    requires Varint.Parse(s).Complete?
    ensures 0 < Varint.Parse(s).used <= |s| && Varint.Parse(s).value < Varint.LIMIT
    ensures |Varint.Encode(Varint.Parse(s).value)| <= Varint.Parse(s).used
    ensures forall b: Bytes :: Varint.Parse(s + b) == Varint.Parse(s)
  {
    var n := Varint.Length(s[0]);
    var v := s[..n];
    Varint.ValueBound(v);
    Varint.EncodeIsMinimal(v);
    forall b: Bytes ensures Varint.Parse(s + b) == Varint.Parse(s) {
      assert (s + b)[..n] == v;
    }
  }

  function TakeAll(r: Receiver, chunks: seq<Bytes>): (t: Taken)
    requires Valid(r)
    ensures Valid(t.next)
    decreases |chunks|
  {
    if chunks == [] then Taken(r, [], 0)
    else
      var t := Take(r, chunks[0]);
      Plus(t, TakeAll(t.next, chunks[1..]))
  }

  function Plus(t: Taken, u: Taken): Taken {
    Taken(u.next, t.frames + u.frames, t.dropped + u.dropped)
  }

  // ------------------------------------------------- when nothing is dropped

  lemma ThenPlus(frames: seq<Bytes>, t: Taken, u: Taken)
    ensures Then(frames, Plus(t, u)) == Plus(Then(frames, t), u)
  {
    assert frames + (t.frames + u.frames) == frames + t.frames + u.frames;
  }

  lemma PlusNothing(r: Receiver, u: Taken)
    ensures Plus(Taken(r, [], 0), u) == u
  {
  }

  lemma TakeNothing(r: Receiver)
    requires Valid(r)
    ensures Take(r, []) == Taken(r, [], 0)
  {
  }

  lemma TakeIdle(chunk: Bytes)
    requires chunk != []
    ensures var p := Varint.Parse(chunk);
            && (p.Incomplete? ==> Take(Idle, chunk) == Taken(Idle, [], |chunk|))
            && (p.Complete? ==>
                  && 0 < p.used <= |chunk| && p.value < Varint.LIMIT
                  && Take(Idle, chunk) == Take(Opened(p.value), chunk[p.used..]))
  {
    hide Varint.Parse, Varint.Encode;
    if Varint.Parse(chunk).Complete? { ParseFacts(chunk); }
  }

  /** A chunk that does not complete the frame. */
  lemma TakeShort(size: nat, got: Bytes, chunk: Bytes)
    requires |got| + |chunk| < size < Varint.LIMIT
    ensures Take(Reading(size, got), chunk) == Taken(Reading(size, got + chunk), [], 0)
  {
    assert got + [] == got;
  }

  /** A chunk that completes it. */
  lemma TakeFull(size: nat, got: Bytes, chunk: Bytes)
    requires |got| < size <= |got| + |chunk| && size < Varint.LIMIT
    ensures var left := size - |got|;
            Take(Reading(size, got), chunk) == Then([got + chunk[..left]], Take(Idle, chunk[left..]))
  {
    hide Varint.Parse, Varint.Encode, Then, Opened;
    var r, left := Reading(size, got), size - |got|;
    assert chunk != [] && left > 0 && |chunk| >= left;
    var all := got + chunk[..left];
    assert Take(r, chunk) == Then([all], Take(Idle, chunk[left..]));
  }

  /** Two chunks are one chunk, if the first one does not end inside a length. */
  lemma {:induction false} TakeAppend(r: Receiver, a: Bytes, b: Bytes)
    requires Valid(r) && Take(r, a).dropped == 0
    ensures Take(r, a + b) == Plus(Take(r, a), Take(Take(r, a).next, b))
    decreases |a|
  {
    hide Take, Varint.Parse, Varint.Encode;
    if a == [] {
      assert a + b == b;
      TakeNothing(r);
      PlusNothing(r, Take(r, b));
    } else if r.Idle? {
      TakeIdle(a);
      ParseFacts(a);
      TakeIdle(a + b);
      var p := Varint.Parse(a);
      assert (a + b)[p.used..] == a[p.used..] + b;
      TakeAppend(Opened(p.value), a[p.used..], b);
    } else {
      TakeAppendReading(r.size, r.got, a, b);
    }
  }

  lemma {:induction false} TakeAppendReading(size: nat, got: Bytes, a: Bytes, b: Bytes)
    requires |got| < size < Varint.LIMIT && a != [] && Take(Reading(size, got), a).dropped == 0
    ensures var t := Take(Reading(size, got), a); Take(Reading(size, got), a + b) == Plus(t, Take(t.next, b))
    decreases |a|, 0
  {
    hide Take, Varint.Parse, Varint.Encode;
    var left := size - |got|;
    if left <= |a| {
      TakeFull(size, got, a);
      TakeFull(size, got, a + b);
      assert (a + b)[..left] == a[..left] && (a + b)[left..] == a[left..] + b;
      TakeAppend(Idle, a[left..], b);
      var u := Take(Idle, a[left..]);
      ThenPlus([got + a[..left]], u, Take(u.next, b));
    } else {
      TakeShort(size, got, a);
      TakeInside(size, got, a, b);
      PlusNothing(Reading(size, got + a), Take(Reading(size, got + a), b));
    }
  }

  lemma TakeInside(size: nat, got: Bytes, a: Bytes, b: Bytes)
    requires |got| + |a| < size < Varint.LIMIT
    ensures Take(Reading(size, got), a + b) == Take(Reading(size, got + a), b)
  {
    hide Take;
    if |got| + |a| + |b| < size {
      TakeShort(size, got, a + b);
      TakeShort(size, got + a, b);
      assert got + (a + b) == got + a + b;
    } else {
      TakeFull(size, got, a + b);
      TakeFull(size, got + a, b);
      var left := size - |got|;
      assert got + (a + b)[..left] == got + a + b[..left - |a|];
      assert (a + b)[left..] == b[left - |a|..];
    }
  }

  predicate Sendable(frames: seq<Bytes>) {
    forall f | f in frames :: 0 < |f| < Varint.LIMIT
  }

  lemma TakeFrame(f: Bytes, rest: Bytes)
    requires 0 < |f| < Varint.LIMIT
    ensures Take(Idle, Framed(f) + rest) == Then([f], Take(Idle, rest))
  {
    hide Take, Varint.Encode, Varint.Parse;
    var l := Varint.Encode(|f|);
    var s := Framed(f) + rest;
    assert s == l + (f + rest);
    Varint.EncodeParses(|f|, f + rest);
    TakeIdle(s);
    assert s[|l|..] == f + rest;
    TakeFull(|f|, [], f + rest);
    assert [] + (f + rest)[..|f|] == f && (f + rest)[|f|..] == rest;
  }

  /** What the server sends of whole frames comes out as these frames. */
  lemma {:induction false} TakeWire(frames: seq<Bytes>, rest: Bytes)
    requires Sendable(frames)
    ensures Take(Idle, Wire(frames) + rest) == Then(frames, Take(Idle, rest))
    decreases |frames|
  {
    hide Take, Framed;
    if frames == [] {
      assert Wire(frames) + rest == rest;
      assert [] + Take(Idle, rest).frames == Take(Idle, rest).frames;
    } else {
      var tail := Wire(frames[1..]) + rest;
      assert Wire(frames) + rest == Framed(frames[0]) + tail;
      TakeFrame(frames[0], tail);
      TakeWire(frames[1..], rest);
      assert [frames[0]] + (frames[1..] + Take(Idle, rest).frames) == frames + Take(Idle, rest).frames;
    }
  }

  function NonEmpty(frames: seq<Bytes>): seq<Bytes> {
    if frames == [] then [] else (if frames[0] == [] then [] else [frames[0]]) + NonEmpty(frames[1..])
  }

  /** Frames of length zero between the others are passed over. */
  lemma {:induction false} TakeWireWithEmpty(frames: seq<Bytes>, rest: Bytes)
    requires forall f | f in frames :: |f| < Varint.LIMIT
    ensures Take(Idle, Wire(frames) + rest) == Then(NonEmpty(frames), Take(Idle, rest))
    decreases |frames|
  {
    hide Take, Framed;
    if frames == [] {
      assert Wire(frames) + rest == rest;
      assert [] + Take(Idle, rest).frames == Take(Idle, rest).frames;
    } else {
      var f, tail := frames[0], Wire(frames[1..]) + rest;
      assert Wire(frames) + rest == Framed(f) + tail;
      TakeWireWithEmpty(frames[1..], rest);
      if f == [] {
        TakeEmptyFrame(tail);
      } else {
        TakeFrame(f, tail);
        var later := NonEmpty(frames[1..]);
        assert [f] + (later + Take(Idle, rest).frames) == [f] + later + Take(Idle, rest).frames;
      }
      assert NonEmpty(frames) == (if f == [] then [] else [f]) + NonEmpty(frames[1..]);
    }
  }

  lemma TakeEmptyFrame(rest: Bytes)
    ensures Take(Idle, Framed([]) + rest) == Take(Idle, rest)
  {
    hide Take, Varint.Encode, Varint.Parse;
    var l := Varint.Encode(0);
    var s := Framed([]) + rest;
    assert s == l + rest;
    Varint.EncodeParses(0, rest);
    TakeIdle(s);
    assert s[|l|..] == rest;
  }

  // ------------------------------------------------------------- accounting

  /** Octets of the stream that the receiver holds, counting the shortest length. */
  function Held(r: Receiver): nat {
    if r.Idle? then 0 else |Varint.Encode(r.size)| + |r.got|
  }

  lemma {:induction false} WireAppend(a: seq<Bytes>, b: seq<Bytes>)
    ensures Wire(a + b) == Wire(a) + Wire(b)
    decreases |a|
  {
    hide Framed;
    if a == [] {
      assert a + b == b;
    } else {
      assert (a + b)[1..] == a[1..] + b;
      WireAppend(a[1..], b);
      assert Framed(a[0]) + (Wire(a[1..]) + Wire(b)) == Wire(a) + Wire(b);
    }
  }

  lemma WireOne(f: Bytes)
    ensures |Wire([f])| == |Varint.Encode(|f|)| + |f|
  {
    assert [f][1..] == [];
  }

  /** No octet is counted twice: frames, held octets and dropped octets all came in. */
  lemma {:induction false} Accounted(r: Receiver, chunk: Bytes)
    requires Valid(r)
    ensures var t := Take(r, chunk); t.dropped + |Wire(t.frames)| + Held(t.next) <= |chunk| + Held(r)
    decreases |chunk|
  {
    hide Take, Varint.Parse, Varint.Encode;
    if chunk == [] {
      TakeNothing(r);
    } else if r.Idle? {
      TakeIdle(chunk);
      var p := Varint.Parse(chunk);
      if p.Complete? {
        ParseFacts(chunk);
        Accounted(Opened(p.value), chunk[p.used..]);
      }
    } else if |r.got| + |chunk| < r.size {
      TakeShort(r.size, r.got, chunk);
    } else {
      TakeFull(r.size, r.got, chunk);
      var left := r.size - |r.got|;
      var f := r.got + chunk[..left];
      Accounted(Idle, chunk[left..]);
      WireOne(f);
      WireAppend([f], Take(Idle, chunk[left..]).frames);
    }
  }

  lemma {:induction false} AccountedAll(r: Receiver, chunks: seq<Bytes>)
    requires Valid(r)
    ensures var t := TakeAll(r, chunks); t.dropped + |Wire(t.frames)| + Held(t.next) <= |Join(chunks)| + Held(r)
    decreases |chunks|
  {
    hide Take, Varint.Encode;
    if chunks != [] {
      var t := Take(r, chunks[0]);
      Accounted(r, chunks[0]);
      AccountedAll(t.next, chunks[1..]);
      WireAppend(t.frames, TakeAll(t.next, chunks[1..]).frames);
    }
  }

  // ------------------------------------------------------------ all chunks

  /** The first chunks, up to a boundary, taken as one string lose nothing. */
  predicate CleanAt(r: Receiver, chunks: seq<Bytes>, i: nat)
    requires Valid(r) && i <= |chunks|
  {
    Take(r, Join(chunks[..i])).dropped == 0
  }

  /** Nothing is dropped exactly when nothing is dropped at any chunk boundary, and then
      the chunks act like their concatenation. */
  lemma {:induction false} CleanEverywhere(r: Receiver, chunks: seq<Bytes>)
    requires Valid(r)
    ensures TakeAll(r, chunks).dropped == 0 <==> forall i | 0 <= i <= |chunks| :: CleanAt(r, chunks, i)
    ensures TakeAll(r, chunks).dropped == 0 ==> TakeAll(r, chunks) == Take(r, Join(chunks))
    decreases |chunks|
  {
    hide Take;
    TakeNothing(r);
    assert chunks[..0] == [];
    if chunks != [] {
      var t, rest := Take(r, chunks[0]), chunks[1..];
      assert chunks[..1][1..] == [] && Join(chunks[..1]) == chunks[0];
      assert CleanAt(r, chunks, 1) <==> t.dropped == 0;
      if t.dropped == 0 {
        CleanEverywhere(t.next, rest);
        TakeAppend(r, chunks[0], Join(rest));
        forall i | 0 <= i <= |rest| ensures CleanAt(t.next, rest, i) <==> CleanAt(r, chunks, i + 1) {
          assert chunks[..i + 1][1..] == rest[..i];
          TakeAppend(r, chunks[0], Join(rest[..i]));
        }
        assert forall i | 0 < i <= |chunks| :: CleanAt(t.next, rest, i - 1) <==> CleanAt(r, chunks, i);
      }
    }
  }

  // ------------------------------------------------------------ the result

  /** Octet c of the wire lies inside a length: some, but not all of its octets are in front of it. */
  predicate InsideLength(frames: seq<Bytes>, c: nat)
    decreases |frames|
  {
    frames != [] &&
    var l, n := |Varint.Encode(|frames[0]|)|, |frames[0]|;
    if c < l then c > 0 else c >= l + n && InsideLength(frames[1..], c - l - n)
  }

  lemma PartOfLength(f: Bytes, c: nat)
    requires 0 < |f| < Varint.LIMIT && 0 < c < |Varint.Encode(|f|)|
    ensures Varint.Parse(Varint.Encode(|f|)[..c]).Incomplete?
  {
    Varint.EncodeParses(|f|, []);
    var e := Varint.Encode(|f|);
    assert e[..c][0] == e[0];
  }

  /** A prefix of the wire loses octets exactly when it ends inside a length. */
  lemma {:induction false} CutDrops(frames: seq<Bytes>, c: nat)
    requires Sendable(frames) && c <= |Wire(frames)|
    ensures Take(Idle, Wire(frames)[..c]).dropped > 0 <==> InsideLength(frames, c)
    decreases |frames|
  {
    hide Take, Varint.Encode, Varint.Parse;
    if c == 0 {
      assert Wire(frames)[..c] == [];
      TakeNothing(Idle);
    } else {
      var f, rest := frames[0], Wire(frames[1..]);
      var e := Varint.Encode(|f|);
      var cut := Wire(frames)[..c];
      assert Wire(frames) == e + (f + rest);
      if c < |e| {
        assert cut == e[..c];
        PartOfLength(f, c);
        TakeIdle(cut);
      } else if c < |e| + |f| {
        var part := f[..c - |e|];
        assert cut == e + part;
        Varint.EncodeParses(|f|, part);
        TakeIdle(cut);
        assert cut[|e|..] == part;
        TakeShort(|f|, [], part);
      } else {
        var tail := rest[..c - |e| - |f|];
        assert cut == Framed(f) + tail;
        TakeFrame(f, tail);
        CutDrops(frames[1..], c - |e| - |f|);
      }
    }
  }

  /** However frames on one stream are cut into chunks: the client rebuilds exactly these
      frames and is ready for the next one if and only if no chunk ends inside a length. */
  lemma RebuiltIffNoLengthIsSplit(frames: seq<Bytes>, chunks: seq<Bytes>)
    requires Sendable(frames) && Join(chunks) == Wire(frames)
    ensures TakeAll(Idle, chunks).next == Idle && TakeAll(Idle, chunks).frames == frames
       <==> forall i | 0 <= i <= |chunks| :: !InsideLength(frames, |Join(chunks[..i])|)
  {
    hide Take, TakeAll, InsideLength, Join, Wire;
    var t := TakeAll(Idle, chunks);
    forall i | 0 <= i <= |chunks| ensures CleanAt(Idle, chunks, i) <==> !InsideLength(frames, |Join(chunks[..i])|) {
      JoinPrefix(chunks, i);
      CutDrops(frames, |Join(chunks[..i])|);
    }
    CleanEverywhere(Idle, chunks);
    AccountedAll(Idle, chunks);
    TakeWire(frames, []);
    TakeNothing(Idle);
    assert Wire(frames) + [] == Wire(frames) && frames + [] == frames;
    if forall i | 0 <= i <= |chunks| :: !InsideLength(frames, |Join(chunks[..i])|) {
      assert forall i | 0 <= i <= |chunks| :: CleanAt(Idle, chunks, i);
    } else {
      var i :| 0 <= i <= |chunks| && InsideLength(frames, |Join(chunks[..i])|);
      assert !CleanAt(Idle, chunks, i);
    }
  }
}
