/** Capsules (section 3.2 of RFC 9297): the accumulator that takes them in any chunks,
    and the close and drain capsules of a WebTransport session. */
module Capsule {
  import opened Bytes
  import Writer
  import Varint

  const CLOSE_SESSION: nat := 0x2843
  const DRAIN_SESSION: nat := 0x78AE

  // ----------------------------------------------------------- specification

  /** What the octets taken so far say: type and length may still be missing. */
  datatype Progress = HeaderMissing | HeaderKnown(ctype: nat, length: nat, headerLength: nat)

  function ProgressOf(taken: Bytes): Progress {
    match Varint.Parse(taken)
    case Incomplete => HeaderMissing
    case Complete(ctype, n) =>
      match Varint.Parse(taken[n..])
      case Incomplete => HeaderMissing
      case Complete(length, m) => HeaderKnown(ctype, length, n + m)
  }

  /** The capsule in `taken` is stored: its value ends where `taken` ends. */
  predicate Stored(taken: Bytes) {
    var p := ProgressOf(taken);
    p.HeaderKnown? && p.length > 0 && |taken| == p.headerLength + p.length
  }

  /** An accumulator that has taken these octets still needs more. */
  predicate Hungry(taken: Bytes) {
    var p := ProgressOf(taken);
    p.HeaderKnown? ==> |taken| < p.headerLength + p.length
  }

  /** More, from octet `used` of the chunk on; a stored capsule; or NULL. */
  datatype Outcome = More(taken: Bytes) | Done(taken: Bytes, used: nat) | Refused

  /** One chunk, taken octet by octet until the capsule is complete. */
  function Feed(taken: Bytes, chunk: Bytes): Outcome
    decreases |chunk|
  {
    if chunk == [] then More(taken)
    else
      var t := taken + [chunk[0]];
      var p := ProgressOf(t);
      if p.HeaderKnown? && p.length == 0 then Refused
      else if Stored(t) then Done(t, 1)
      else
        match Feed(t, chunk[1..])
        case Done(t1, used) => Done(t1, used + 1)
        case More(t1) => More(t1)
        case Refused => Refused
  }

  /** Chunk after chunk; `used` counts the octets of all chunks. */
  function FeedAll(taken: Bytes, chunks: seq<Bytes>): Outcome
    decreases |chunks|
  {
    if chunks == [] then More(taken)
    else
      match Feed(taken, chunks[0])
      case Refused => Refused
      case Done(t, used) => Done(t, used)
      case More(t) => After(|chunks[0]|, FeedAll(t, chunks[1..]))
  }

  function After(n: nat, o: Outcome): Outcome {
    if o.Done? then Done(o.taken, n + o.used) else o
  }

  // ------------------------------------------------------- about the machine

  /** A known header stays what it is. */
  lemma ProgressPrefix(a: Bytes, b: Bytes)
    requires ProgressOf(a).HeaderKnown?
    ensures ProgressOf(a + b) == ProgressOf(a) && ProgressOf(a).headerLength <= |a|
  {
    hide Varint.Parse;
    Varint.ParsePrefix(a, b);
    var n := Varint.Parse(a).used;
    Varint.ParsePrefix(a[n..], b);
    assert (a + b)[n..] == a[n..] + b;
  }

  /** Every proper prefix of what a hungry or just satisfied accumulator took was hungry. */
  lemma HungryPrefix(a: Bytes, b: Bytes)
    requires b != []
    requires var p := ProgressOf(a + b); p.HeaderKnown? ==> |a + b| <= p.headerLength + p.length
    ensures Hungry(a) && !Stored(a) && !(ProgressOf(a).HeaderKnown? && ProgressOf(a).length == 0)
  {
    if ProgressOf(a).HeaderKnown? { ProgressPrefix(a, b); }
  }

  lemma HeaderShape(t: Bytes)
    ensures ProgressOf(t).HeaderMissing? <==>
            t == [] || |t| <= Varint.Length(t[0]) || |t| < Varint.Length(t[0]) + Varint.Length(t[Varint.Length(t[0])])
    ensures ProgressOf(t).HeaderKnown? ==>
              var n := Varint.Length(t[0]);
              var m := Varint.Length(t[n]);
              ProgressOf(t) == HeaderKnown(Varint.Value(t[..n]), Varint.Value(t[n..n + m]), n + m)
  {
    hide Varint.Value;
    if t != [] && |t| > Varint.Length(t[0]) {
      var n := Varint.Length(t[0]);
      var r := t[n..];
      assert r[0] == t[n];
      if |r| >= Varint.Length(r[0]) { assert r[..Varint.Length(r[0])] == t[n..n + Varint.Length(r[0])]; }
    }
  }

  lemma {:induction false} FeedMore(taken: Bytes, bs: Bytes)
    requires Hungry(taken + bs)
    ensures Feed(taken, bs) == More(taken + bs)
    decreases |bs|
  {
    hide ProgressOf;
    if bs == [] {
      assert taken + [] == taken;
    } else {
      var t := taken + [bs[0]];
      assert t + bs[1..] == taken + bs;
      if ProgressOf(t).HeaderKnown? { ProgressPrefix(t, bs[1..]); }
      FeedMore(t, bs[1..]);
    }
  }

  lemma {:induction false} FeedDone(taken: Bytes, bs: Bytes, rest: Bytes)
    requires bs != [] && Stored(taken + bs)
    ensures Feed(taken, bs + rest) == Done(taken + bs, |bs|)
    decreases |bs|
  {
    hide ProgressOf;
    var t := taken + [bs[0]];
    assert t + bs[1..] == taken + bs && (bs + rest)[1..] == bs[1..] + rest;
    if bs[1..] != [] {
      HungryPrefix(t, bs[1..]);
      FeedDone(t, bs[1..], rest);
    } else {
      assert t == taken + bs;
    }
  }

  lemma {:induction false} FeedRefused(taken: Bytes, bs: Bytes, rest: Bytes)
    requires bs != []
    requires var p := ProgressOf(taken + bs); p.HeaderKnown? && p.length == 0 && p.headerLength == |taken + bs|
    ensures Feed(taken, bs + rest) == Refused
    decreases |bs|
  {
    hide ProgressOf;
    var t := taken + [bs[0]];
    assert t + bs[1..] == taken + bs && (bs + rest)[1..] == bs[1..] + rest;
    if bs[1..] != [] {
      HungryPrefix(t, bs[1..]);
      FeedRefused(t, bs[1..], rest);
    } else {
      assert t == taken + bs;
    }
  }

  lemma {:induction false} FeedAppend(taken: Bytes, a: Bytes, b: Bytes)
    ensures var o := Feed(taken, a);
            Feed(taken, a + b) == if o.More? then After(|a|, Feed(o.taken, b)) else o
    decreases |a|
  {
    hide ProgressOf, Stored;
    if a == [] {
      assert a + b == b;
    } else {
      assert (a + b)[1..] == a[1..] + b;
      FeedAppend(taken + [a[0]], a[1..], b);
    }
  }

  /** However the octets are cut into chunks, the same capsule is stored at the same octet. */
  lemma {:induction false} ChunkingNeverMatters(taken: Bytes, chunks: seq<Bytes>)
    ensures FeedAll(taken, chunks) == Feed(taken, Join(chunks))
    decreases |chunks|
  {
    if chunks != [] {
      FeedAppend(taken, chunks[0], Join(chunks[1..]));
      var o := Feed(taken, chunks[0]);
      if o.More? { ChunkingNeverMatters(o.taken, chunks[1..]); }
    }
  }

  // ----------------------------------------------------------------- capsules

  predicate IsCapsule(typeOctets: Bytes, lengthOctets: Bytes, value: Bytes) {
    Varint.IsVarint(typeOctets) && Varint.IsVarint(lengthOctets) && Varint.Value(lengthOctets) == |value|
  }

  lemma CapsuleProgress(typeOctets: Bytes, lengthOctets: Bytes, value: Bytes)
    requires IsCapsule(typeOctets, lengthOctets, value)
    ensures ProgressOf(typeOctets + lengthOctets + value)
         == HeaderKnown(Varint.Value(typeOctets), |value|, |typeOctets + lengthOctets|)
  {
    hide Varint.Parse, Varint.Value;
    var all := typeOctets + lengthOctets + value;
    assert all == typeOctets + (lengthOctets + value);
    Varint.VarintParses(typeOctets, lengthOctets + value);
    Varint.VarintParses(lengthOctets, value);
    assert all[|typeOctets|..] == lengthOctets + value;
  }

  /** From a released accumulator, a capsule with a value, in any chunks and whatever
      follows it, is stored when its last octet is taken and not before. */
  lemma CapsuleIsStored(typeOctets: Bytes, lengthOctets: Bytes, value: Bytes, rest: Bytes, chunks: seq<Bytes>)
    requires IsCapsule(typeOctets, lengthOctets, value) && value != []
    requires Join(chunks) == typeOctets + lengthOctets + value + rest
    ensures var all := typeOctets + lengthOctets + value;
            && FeedAll([], chunks) == Done(all, |all|)
            && ProgressOf(all) == HeaderKnown(Varint.Value(typeOctets), |value|, |typeOctets + lengthOctets|)
  {
    hide Varint.Value, Varint.IsVarint, ProgressOf;
    var all := typeOctets + lengthOctets + value;
    ChunkingNeverMatters([], chunks);
    CapsuleProgress(typeOctets, lengthOctets, value);
    assert [] + all == all;
    FeedDone([], all, rest);
  }

  /** A capsule without a value is refused when its length is complete. */
  lemma EmptyCapsuleIsRefused(typeOctets: Bytes, lengthOctets: Bytes, rest: Bytes, chunks: seq<Bytes>)
    requires IsCapsule(typeOctets, lengthOctets, [])
    requires Join(chunks) == typeOctets + lengthOctets + rest
    ensures FeedAll([], chunks) == Refused
  {
    hide Varint.Value, ProgressOf;
    var all := typeOctets + lengthOctets;
    ChunkingNeverMatters([], chunks);
    CapsuleProgress(typeOctets, lengthOctets, []);
    assert all + [] == all && [] + all == all;
    FeedRefused([], all, rest);
  }

  /** What one call has done, from what it took of the chunk. */
  lemma Conclude(before: Bytes, bytes: Bytes, n: nat, next: Cursor, taken: Bytes, stored: bool)
    requires Hungry(before) && n <= |bytes| && (next.At? ==> n <= next.pos <= |bytes|)
    requires taken == before + bytes[..if next.At? then next.pos else n]
    requires ProgressOf(before + bytes[..n]).HeaderMissing? ==> next == At(|bytes|) && n == |bytes| && !stored
    requires var p := ProgressOf(before + bytes[..n]); p.HeaderKnown? ==>
               && (next.Null? <==> p.length == 0)
               && (next.Null? ==> |taken| == p.headerLength)
               && (next.At? && stored ==> |taken| == p.headerLength + p.length)
               && (next.At? && !stored ==> next.pos == |bytes| && |taken| < p.headerLength + p.length)
    ensures Feed(before, bytes)
         == if next.Null? then Refused else if stored then Done(taken, next.pos) else More(taken)
    ensures ProgressOf(before + bytes[..n]).HeaderKnown? ==> ProgressOf(taken) == ProgressOf(before + bytes[..n])
  {
    var k := if next.At? then next.pos else n;
    var header := before + bytes[..n];
    SplitAt(before, bytes, n, k);
    if ProgressOf(header).HeaderKnown? { ProgressPrefix(header, bytes[n..k]); }
    assert next.At? && stored ==> Stored(taken);
    assert next.At? && !stored ==> Hungry(taken) && k == |bytes|;
    var p := ProgressOf(taken);
    assert next.Null? ==> p.HeaderKnown? && p.length == 0 && p.headerLength == |taken|;
    assert k == 0 ==> next == At(0) && !stored;
    hide *;
    if next.Null? {
      FeedRefused(before, bytes[..k], bytes[k..]);
    } else if stored {
      FeedDone(before, bytes[..k], bytes[k..]);
    } else {
      FeedMore(before, bytes);
    }
  }

  lemma SplitAt(before: Bytes, bytes: Bytes, n: nat, k: nat)
    requires n <= k <= |bytes|
    ensures bytes == bytes[..k] + bytes[k..]
    ensures before + bytes[..k] == before + bytes[..n] + bytes[n..k]
    ensures k == 0 ==> before + bytes[..k] == before
    ensures k == |bytes| ==> bytes[..k] == bytes
  {
  }

  // --------------------------------------------------------- the accumulator

  class Accumulator {
    const headerBuffer: array<Byte>
    var headerLength: nat
    var headerRead: nat
    var valueRead: nat
    var capsuleBufferSize: nat
    var capsuleType: nat
    var capsuleLength: nat
    var capsuleBuffer: array?<Byte>
    var isLengthKnown: bool
    var isStored: bool
    ghost var Taken: Bytes
    ghost var Repr: set<object>

    ghost predicate Shape()
      reads this, Repr
    {
      && this in Repr && headerBuffer in Repr && headerBuffer.Length == 16 && headerRead <= 16
      && (capsuleBuffer != null ==> capsuleBuffer in Repr && capsuleBuffer != headerBuffer)
    }

    /** The header octets are kept until type and length are known, the value octets after. */
    ghost predicate Valid()
      reads this, Repr
      ensures Valid() ==> Shape()
    {
      && Shape()
      && (!isLengthKnown ==>
            && ProgressOf(Taken) == HeaderMissing && headerRead == |Taken| && headerBuffer[..headerRead] == Taken
            && capsuleBuffer == null && capsuleBufferSize == 0 && valueRead == 0)
      && (isLengthKnown ==>
            && ProgressOf(Taken) == HeaderKnown(capsuleType, capsuleLength, headerLength)
            && headerLength + valueRead == |Taken| && valueRead <= capsuleLength
            && capsuleBuffer != null && capsuleBuffer.Length == capsuleBufferSize == capsuleLength > 0
            && capsuleBuffer[..valueRead] == Taken[headerLength..])
      && (isStored <==> isLengthKnown && valueRead == capsuleLength)
    }

    constructor ()
      ensures Valid() && fresh(Repr) && Taken == []
    {
      headerBuffer := new Byte[16];
      headerLength, headerRead, valueRead, capsuleBufferSize, capsuleType, capsuleLength := 0, 0, 0, 0, 0, 0;
      capsuleBuffer, isLengthKnown, isStored := null, false, false;
      Taken := [];
      new;
      Repr := {this, headerBuffer};
    }

    /** h3zero_release_capsule */
    method Release()
      requires Shape()
      modifies this, headerBuffer
      ensures Valid() && Repr == old(Repr) && Taken == []
    {
      forall i | 0 <= i < 16 { headerBuffer[i] := 0; }
      headerLength, headerRead, valueRead, capsuleBufferSize, capsuleType, capsuleLength := 0, 0, 0, 0, 0, 0;
      capsuleBuffer, isLengthKnown, isStored := null, false, false;
      Taken := [];
    }

    /** Type and length are being read; the octets up to n are in the header buffer. */
    ghost predicate Filling(bytes: Bytes, n: nat, before: Bytes)
      reads this, Repr
    {
      && Shape() && n <= |bytes| && !isLengthKnown && !isStored
      && headerBuffer[..headerRead] == before + bytes[..n]
      && capsuleBuffer == null && capsuleBufferSize == 0 && valueRead == 0
    }

    method PushHeader(bytes: Bytes, n: nat, ghost before: Bytes) returns (m: nat)
      requires Filling(bytes, n, before) && n < |bytes| && headerRead < 16
      modifies headerBuffer, `headerRead
      ensures Filling(bytes, m, before) && m == n + 1 && headerRead == old(headerRead) + 1
      ensures forall i | 0 <= i < old(headerRead) :: headerBuffer[i] == old(headerBuffer[i])
    {
      headerBuffer[headerRead] := bytes[n];
      headerRead := headerRead + 1;
      m := n + 1;
      assert bytes[..m] == bytes[..n] + [bytes[n]];
      assert headerBuffer[..headerRead] == old(headerBuffer[..headerRead]) + [bytes[n]];
    }

    /** The octets of the length, as many as the chunk has. */
    method FillLength(bytes: Bytes, start: nat, lengthOfType: nat, ghost before: Bytes) returns (n: nat)
      requires Filling(bytes, start, before) && 1 <= lengthOfType <= headerRead
      requires lengthOfType == Varint.Length(headerBuffer[0])
      requires ProgressOf(headerBuffer[..headerRead]) == HeaderMissing
      modifies headerBuffer, `headerRead, `headerLength
      ensures Filling(bytes, n, before) && start <= n && lengthOfType <= headerRead
      ensures headerBuffer[..lengthOfType] == old(headerBuffer[..lengthOfType])
      ensures headerRead <= lengthOfType ==> n == |bytes|
      ensures headerRead > lengthOfType ==>
                && headerLength == lengthOfType + Varint.Length(headerBuffer[lengthOfType])
                && headerRead <= headerLength && (n == |bytes| || headerRead == headerLength)
    {
      HeaderShape(headerBuffer[..headerRead]);
      hide ProgressOf, Varint.Value;
      ghost var typeOctets := headerBuffer[..lengthOfType];
      n := start;
      while headerRead < lengthOfType + 1 && n < |bytes|
        invariant start <= n <= |bytes| && Filling(bytes, n, before) && lengthOfType <= headerRead
        invariant headerRead > lengthOfType ==> headerRead <= lengthOfType + Varint.Length(headerBuffer[lengthOfType])
        invariant headerBuffer[..lengthOfType] == typeOctets
        modifies headerBuffer, `headerRead
        decreases |bytes| - n
      {
        n := PushHeader(bytes, n, before);
      }
      if headerRead >= lengthOfType + 1 {
        var lengthOfLength := Varint.Length(headerBuffer[lengthOfType]);
        headerLength := lengthOfType + lengthOfLength;
        while headerRead < headerLength && n < |bytes|
          invariant start <= n <= |bytes| && Filling(bytes, n, before)
          invariant lengthOfType < headerRead <= headerLength
          invariant lengthOfLength == Varint.Length(headerBuffer[lengthOfType])
          invariant headerBuffer[..lengthOfType] == typeOctets
          modifies headerBuffer, `headerRead
          decreases |bytes| - n
        {
          n := PushHeader(bytes, n, before);
        }
      }
    }

    /** The type is complete: decode it, go on to the length. */
    method ReadLength(bytes: Bytes, start: nat, lengthOfType: nat, ghost before: Bytes) returns (n: nat)
      requires Filling(bytes, start, before) && 1 <= lengthOfType <= headerRead
      requires lengthOfType == Varint.Length(headerBuffer[0])
      requires ProgressOf(headerBuffer[..headerRead]) == HeaderMissing
      modifies this, headerBuffer
      ensures Repr == old(Repr) && start <= n && Header(bytes, n, before)
    {
      hide ProgressOf, Varint.Value;
      var typeOctets := headerBuffer[..lengthOfType];
      assert typeOctets[..lengthOfType] == typeOctets;
      var used;
      used, capsuleType := Varint.Decode(typeOctets, lengthOfType);
      n := FillLength(bytes, start, lengthOfType, before);
      ghost var taken := headerBuffer[..headerRead];
      HeaderShape(taken);
      assert typeOctets == taken[..lengthOfType] && taken[0] == typeOctets[0];
      if headerRead >= lengthOfType + 1 && headerRead >= headerLength {
        var octets := headerBuffer[lengthOfType..headerLength];
        assert octets[..|octets|] == octets && octets == taken[lengthOfType..headerLength];
        used, capsuleLength := Varint.Decode(octets, |octets|);
        isLengthKnown := true;
      }
    }

    /** The header as far as it was read: complete, or all of the chunk belongs to it. */
    ghost predicate Header(bytes: Bytes, n: nat, before: Bytes)
      reads this, Repr
    {
      && Shape() && n <= |bytes| && !isStored
      && headerBuffer[..headerRead] == before + bytes[..n]
      && capsuleBuffer == null && capsuleBufferSize == 0 && valueRead == 0
      && (isLengthKnown ==>
            && ProgressOf(headerBuffer[..headerRead]) == HeaderKnown(capsuleType, capsuleLength, headerLength)
            && headerLength == headerRead)
      && (!isLengthKnown ==> ProgressOf(headerBuffer[..headerRead]) == HeaderMissing && n == |bytes|)
    }

    /** Type and length from the chunk. */
    method ReadHeader(bytes: Bytes, ghost before: Bytes) returns (n: nat)
      requires Filling(bytes, 0, before) && ProgressOf(before) == HeaderMissing && (headerRead >= 1 || bytes != [])
      modifies this, headerBuffer
      ensures Repr == old(Repr) && Header(bytes, n, before)
    {
      hide ProgressOf, Varint.Value;
      assert headerBuffer[..headerRead] == before;
      HeaderShape(before);
      n := 0;
      if headerRead < 1 {
        n := PushHeader(bytes, n, before);
      }
      var lengthOfType := Varint.Length(headerBuffer[0]);
      while headerRead < lengthOfType && n < |bytes|
        invariant n <= |bytes| && Filling(bytes, n, before) && 1 <= headerRead
        invariant lengthOfType == Varint.Length(headerBuffer[0])
        invariant headerRead <= lengthOfType || (n == 0 && headerBuffer[..headerRead] == before)
        modifies headerBuffer, `headerRead
        decreases |bytes| - n
      {
        n := PushHeader(bytes, n, before);
      }
      HeaderShape(headerBuffer[..headerRead]);
      if headerRead >= lengthOfType {
        n := ReadLength(bytes, n, lengthOfType, before);
      }
    }

    /** Value octets: the buffer is made when the length becomes known. */
    method StoreValue(bytes: Bytes, n: nat) returns (next: Cursor)
      requires Shape() && isLengthKnown && !isStored && n <= |bytes|
      requires capsuleBuffer == null ==> capsuleBufferSize == 0 && valueRead == 0
      requires capsuleBuffer != null ==>
                 capsuleBuffer.Length == capsuleBufferSize == capsuleLength && valueRead < capsuleLength
      modifies this, capsuleBuffer
      ensures fresh(Repr - old(Repr)) && Shape() && isLengthKnown && old(Repr) <= Repr
      ensures headerRead == old(headerRead) && headerLength == old(headerLength)
      ensures capsuleType == old(capsuleType) && capsuleLength == old(capsuleLength)
      ensures Taken == old(Taken)
      ensures next.Null? <==> capsuleLength == 0
      ensures next.At? ==>
                && n <= next.pos <= |bytes| && valueRead == old(valueRead) + (next.pos - n) <= capsuleLength
                && (next.pos == |bytes| || valueRead == capsuleLength)
                && capsuleBuffer != null && capsuleBuffer.Length == capsuleBufferSize == capsuleLength
                && capsuleBuffer[..valueRead] == old(ValueSoFar()) + bytes[n..next.pos]
                && (isStored <==> valueRead == capsuleLength)
    {
      ghost var before := ValueSoFar();
      if capsuleBufferSize < capsuleLength {
        capsuleBuffer := new Byte[capsuleLength];
        Repr := Repr + {capsuleBuffer};
        capsuleBufferSize := capsuleLength;
      }
      if capsuleBuffer == null {
        valueRead, capsuleBufferSize := 0, 0;
        next := Null;
      } else {
        var available := |bytes| - n;
        if valueRead + available > capsuleLength {
          available := capsuleLength - valueRead;
        }
        assert before == capsuleBuffer[..valueRead];
        Writer.CopyIn(capsuleBuffer, valueRead, bytes[n..n + available]);
        next := At(n + available);
        valueRead := valueRead + available;
        if valueRead >= capsuleLength {
          isStored := true;
        }
      }
    }

    ghost function ValueSoFar(): Bytes
      requires Shape()
      reads this, Repr
    {
      if capsuleBuffer == null || valueRead > capsuleBuffer.Length then [] else capsuleBuffer[..valueRead]
    }

    /** The header is complete; none, some, but not all of the value is stored. */
    ghost predicate Loading()
      reads this, Repr
    {
      && Shape() && isLengthKnown && !isStored
      && ProgressOf(Taken) == HeaderKnown(capsuleType, capsuleLength, headerLength)
      && headerLength + valueRead == |Taken| && ValueSoFar() == Taken[headerLength..]
      && (capsuleBuffer == null ==> capsuleBufferSize == 0 && valueRead == 0)
      && (capsuleBuffer != null ==>
            capsuleBuffer.Length == capsuleBufferSize == capsuleLength && valueRead < capsuleLength)
    }

    method TakeValue(bytes: Bytes, n: nat) returns (next: Cursor)
      requires Loading() && n <= |bytes|
      modifies this, capsuleBuffer
      ensures fresh(Repr - old(Repr)) && Shape()
      ensures next.Null? <==> old(capsuleLength) == 0
      ensures next.Null? ==> |old(Taken)| == old(headerLength) && Taken == old(Taken)
      ensures next.At? ==>
                && Valid() && n <= next.pos <= |bytes| && Taken == old(Taken) + bytes[n..next.pos]
                && (isStored <==> |Taken| == old(headerLength) + old(capsuleLength))
                && (!isStored ==> next.pos == |bytes| && |Taken| < old(headerLength) + old(capsuleLength))
    {
      hide ProgressOf;
      ghost var value := ValueSoFar();
      next := StoreValue(bytes, n);
      if next.At? {
        ProgressPrefix(Taken, bytes[n..next.pos]);
        Taken := Taken + bytes[n..next.pos];
        assert Taken[headerLength..] == value + bytes[n..next.pos];
      }
    }

    /** The header octets of the chunk, when the header is not complete yet. */
    method TakeHeader(bytes: Bytes) returns (n: nat)
      requires Valid() && !isStored && (headerRead >= 1 || bytes != [])
      modifies this, headerBuffer
      ensures Repr == old(Repr) && n <= |bytes| && Taken == old(Taken) + bytes[..n]
      ensures isLengthKnown ==> Loading()
      ensures !isLengthKnown ==> Valid() && !isStored && n == |bytes|
    {
      hide ProgressOf;
      ghost var before := Taken;
      assert bytes[..0] == [] && before + [] == before;
      n := 0;
      if !isLengthKnown {
        n := ReadHeader(bytes, before);
        Taken := before + bytes[..n];
      }
    }

    /** h3zero_accumulate_capsule, on an accumulator that holds no stored capsule. NULL
        leaves the accumulator to be released. */
    method Accumulate(bytes: Bytes) returns (next: Cursor)
      requires Valid() && !isStored && (headerRead >= 1 || bytes != [])
      modifies Repr
      ensures fresh(Repr - old(Repr)) && Shape()
      ensures Accumulated(Feed(old(Taken), bytes), bytes, next)
    {
      hide ProgressOf, Feed;
      ghost var before := Taken;
      assert Hungry(before);
      var n := TakeHeader(bytes);
      next := At(n);
      if isLengthKnown {
        hide Valid;
        next := TakeValue(bytes, n);
        if next.At? { SplitAt(before, bytes, n, next.pos); }
      }
      Conclude(before, bytes, n, next, Taken, isStored);
    }

    ghost predicate Accumulated(o: Outcome, bytes: Bytes, next: Cursor)
      reads this, Repr
    {
      match o
      case More(taken) => Valid() && Taken == taken && !isStored && next == At(|bytes|)
      case Done(taken, used) => Valid() && Taken == taken && isStored && next == At(used)
      case Refused => next == Null
    }
  }
}
