/** Huffman-coded string literals (section 5.2 of RFC 7541): the decoder that runs
    on a 64-bit register, the walk over the plain bit string that it refines, and
    the encoder that the tables invert. */
module Huffman {
  import opened Bytes

  type Bits = seq<bool>

  const SIZE: nat := 512

  /** A decoding table: an internal index moves up by one on a zero and by its
      value on a one; a terminal index carries an octet. */
  datatype Table = Table(mask: nat -> bool, octets: nat -> Byte) {
    predicate Internal(i: nat) { mask(i) }

    function Value(i: nat): Byte { octets(i) }
  }

  datatype Decoded = Decoded(octets: Bytes, ok: bool)

  // ------------------------------------------------------------- bit strings

  /** The n low-order bits of v, most significant first. */
  function BitsOf(v: nat, n: nat): (b: Bits)
    ensures |b| == n
  {
    if n == 0 then [] else BitsOf(v / 2, n - 1) + [v % 2 == 1]
  }

  /** The bits of a number below its leading one. */
  function BitsBehindOne(v: nat): Bits {
    if v <= 1 then [] else BitsBehindOne(v / 2) + [v % 2 == 1]
  }

  function Number(b: Bits): nat {
    if b == [] then 0 else 2 * Number(b[..|b| - 1]) + (if b[|b| - 1] then 1 else 0)
  }

  function Unpack(s: Bytes): (b: Bits)
    ensures |b| == 8 * |s|
  {
    if s == [] then [] else BitsOf(s[0], 8) + Unpack(s[1..])
  }

  function Zeros(n: nat): (b: Bits)
    ensures |b| == n && forall i | 0 <= i < n :: !b[i]
  {
    seq(n, _ => false)
  }

  function Ones(n: nat): (b: Bits)
    ensures |b| == n && forall i | 0 <= i < n :: b[i]
  {
    seq(n, _ => true)
  }

  // ---------------------------------------------------------- the plain walk

  /** Follow the bits from an index; `ones` says that every bit since the last
      octet was a one, `room` is the space left in the output. */
  function Walk(t: Table, bits: Bits, index: nat, ones: bool, room: nat): (r: Decoded)
    requires index < SIZE
    ensures |r.octets| <= room
    decreases |bits| + room
  {
    if t.Internal(index) then
      if bits == [] then Decoded([], ones)
      else
        var next := if bits[0] then index + t.Value(index) else index + 1;
        if next >= SIZE then Decoded([], ones && bits[0])
        else Walk(t, bits[1..], next, ones && bits[0], room)
    else if room > 0 then
      var r := Walk(t, bits, 0, true, room - 1);
      Decoded([t.Value(index)] + r.octets, r.ok)
    else Decoded([], true)
  }

  function Decode(t: Table, s: Bytes, room: nat): Decoded {
    Walk(t, Unpack(s), 0, true, room)
  }

  // --------------------------------------------------- the 64-bit register

  type Register = r: Bits | |r| == 64 witness Zeros(64)

  function Widen(b: Byte): Register {
    Zeros(56) + BitsOf(b, 8)
  }

  function ShiftLeft(r: Register, n: nat): Register
    requires n <= 64
  {
    r[n..] + Zeros(n)
  }

  function Or(a: Register, b: Register): Register {
    seq(64, i requires 0 <= i < 64 => a[i] || b[i])
  }

  /** The register holds `count` bits at its top and nothing below them. */
  predicate Holds(r: Register, count: nat) {
    count <= 64 && forall i | count <= i < 64 :: !r[i]
  }

  /** The bits still to be read: those of the register, then those of the input. */
  function Window(r: Register, count: nat, bytes: Bytes, pos: nat): Bits
    requires count <= 64 && pos <= |bytes|
  {
    r[..count] + Unpack(bytes[pos..])
  }

  /** Shifting an octet to just below the bits in use and or-ing it in appends its bits. */
  lemma OrAppends(r: Register, count: nat, b: Byte)
    requires count <= 56 && Holds(r, count)
    ensures var r' := Or(r, ShiftLeft(Widen(b), 64 - count - 8));
            Holds(r', count + 8) && r'[..count + 8] == r[..count] + BitsOf(b, 8)
  {
    var added := ShiftLeft(Widen(b), 56 - count);
    assert forall i | 0 <= i < count :: !added[i];
    assert added[count..count + 8] == BitsOf(b, 8);
    assert forall i | count + 8 <= i < 64 :: !added[i];
    var r' := Or(r, added);
    assert forall i | count <= i < count + 8 :: r'[i] == added[count..count + 8][i - count];
  }

  lemma RefillKeepsWindow(r: Register, count: nat, bytes: Bytes, pos: nat)
    requires count <= 56 && Holds(r, count) && pos < |bytes|
    ensures var r' := Or(r, ShiftLeft(Widen(bytes[pos]), 64 - count - 8));
            Holds(r', count + 8) && Window(r', count + 8, bytes, pos + 1) == Window(r, count, bytes, pos)
  {
    OrAppends(r, count, bytes[pos]);
    assert bytes[pos..][1..] == bytes[pos + 1..];
    var o, rest := BitsOf(bytes[pos], 8), Unpack(bytes[pos + 1..]);
    assert r[..count] + o + rest == r[..count] + (o + rest);
  }

  lemma ShiftTakesBit(r: Register, count: nat, bytes: Bytes, pos: nat)
    requires 0 < count && Holds(r, count) && pos <= |bytes|
    ensures var w := Window(r, count, bytes, pos);
            w != [] && w[0] == r[0] && Holds(ShiftLeft(r, 1), count - 1)
            && Window(ShiftLeft(r, 1), count - 1, bytes, pos) == w[1..]
  {
    assert ShiftLeft(r, 1)[..count - 1] == r[..count][1..];
  }

  /** What is still to be decoded completes what is already in the output. */
  ghost predicate Continues(t: Table, goal: Decoded, done: Bytes, bits: Bits, index: nat, ones: bool, room: nat)
    requires index < SIZE
  {
    var rest := Walk(t, bits, index, ones, room);
    goal.octets == done + rest.octets && goal.ok == rest.ok
  }

  lemma DecodeStarts(t: Table, bytes: Bytes, r: Register, room: nat)
    ensures Continues(t, Decode(t, bytes, room), [], Unpack(bytes), 0, true, room)
    ensures Window(r, 0, bytes, 0) == Unpack(bytes)
  {
    assert bytes[0..] == bytes;
  }

  lemma ContinuesOverBit(t: Table, goal: Decoded, done: Bytes, bits: Bits, index: nat, ones: bool, room: nat)
    requires index < SIZE && Continues(t, goal, done, bits, index, ones, room)
    requires t.Internal(index)
    ensures bits == [] ==> goal == Decoded(done, ones)
    ensures bits != [] ==>
            var next := if bits[0] then index + t.Value(index) else index + 1;
            if next < SIZE then Continues(t, goal, done, bits[1..], next, ones && bits[0], room)
            else goal == Decoded(done, ones && bits[0])
  {
    assert done + [] == done;
  }

  lemma ContinuesOverOctet(t: Table, goal: Decoded, done: Bytes, bits: Bits, index: nat, ones: bool, room: nat)
    requires index < SIZE && Continues(t, goal, done, bits, index, ones, room)
    requires !t.Internal(index)
    ensures if room > 0 then Continues(t, goal, done + [t.Value(index)], bits, 0, true, room - 1)
            else goal == Decoded(done, true)
  {
    if room > 0 {
      var r := Walk(t, bits, 0, true, room - 1);
      assert done + ([t.Value(index)] + r.octets) == done + [t.Value(index)] + r.octets;
    } else {
      assert done + [] == done;
    }
  }

  /** The refill block of the decoder: octets move from the input to the register. */
  method RefillRegister(r: Register, count: nat, bytes: Bytes, start: nat)
    returns (valIn: Register, bitsIn: nat, pos: nat)
    requires start <= |bytes| && Holds(r, count)
    ensures pos <= |bytes| && Holds(valIn, bitsIn)
    ensures bitsIn == 0 <==> Window(r, count, bytes, start) == []
    ensures Window(valIn, bitsIn, bytes, pos) == Window(r, count, bytes, start)
  {
    valIn, bitsIn, pos := r, count, start;
    while bitsIn < 57 && pos < |bytes|
      invariant pos <= |bytes| && Holds(valIn, bitsIn)
      invariant Window(valIn, bitsIn, bytes, pos) == Window(r, count, bytes, start)
    {
      RefillKeepsWindow(valIn, bitsIn, bytes, pos);
      var added := ShiftLeft(Widen(bytes[pos]), 64 - bitsIn - 8);
      valIn := Or(valIn, added);
      bitsIn := bitsIn + 8;
      pos := pos + 1;
    }
  }

  /** The next bit leaves the register at its top. */
  method TakeBit(r: Register, count: nat, bytes: Bytes, pos: nat) returns (valIn: Register, bit: bool)
    requires 0 < count && Holds(r, count) && pos <= |bytes|
    ensures Holds(valIn, count - 1)
    ensures [bit] + Window(valIn, count - 1, bytes, pos) == Window(r, count, bytes, pos)
  {
    ShiftTakesBit(r, count, bytes, pos);
    bit := r[0];
    valIn := ShiftLeft(r, 1);
  }

  /** hzero_qpack_huffman_decode: for every table and input, the register loop computes the walk. */
  method DecodeLoop(t: Table, bytes: Bytes, decoded: array<Byte>, maxDecoded: nat) returns (ret: int, nbDecoded: nat)
    requires maxDecoded <= decoded.Length
    modifies decoded
    ensures nbDecoded <= maxDecoded && decoded[..nbDecoded] == Decode(t, bytes, maxDecoded).octets
    ensures ret == if Decode(t, bytes, maxDecoded).ok then 0 else -1
  {
    ret := 0;
    var valIn: Register := Zeros(64);
    var bitsIn: nat, pos: nat := 0, 0;
    var decodedIndex: nat, index: nat := 0, 0;
    var wasAllOnes := true;
    ghost var goal, done: Bytes, window := Decode(t, bytes, maxDecoded), [], Unpack(bytes);
    DecodeStarts(t, bytes, valIn, maxDecoded);
    hide *;

    while true
      invariant pos <= |bytes| && Holds(valIn, bitsIn) && index < SIZE && decodedIndex <= maxDecoded
      invariant window == Window(valIn, bitsIn, bytes, pos) && done == decoded[..decodedIndex]
      invariant Continues(t, goal, done, window, index, wasAllOnes, maxDecoded - decodedIndex)
      decreases |window| + maxDecoded - decodedIndex
    {
      ghost var room := maxDecoded - decodedIndex;
      valIn, bitsIn, pos := RefillRegister(valIn, bitsIn, bytes, pos);
      if t.Internal(index) {
        ContinuesOverBit(t, goal, done, window, index, wasAllOnes, room);
        if bitsIn <= 0 {
          break;
        }
        var bit;
        valIn, bit := TakeBit(valIn, bitsIn, bytes, pos);
        bitsIn := bitsIn - 1;
        window := window[1..];
        if bit {
          index := index + t.Value(index);
        } else {
          index := index + 1;
          wasAllOnes := false;
        }
        if index >= SIZE {
          break;
        }
      } else if decodedIndex < maxDecoded {
        ContinuesOverOctet(t, goal, done, window, index, wasAllOnes, room);
        decoded[decodedIndex] := t.Value(index);
        decodedIndex := decodedIndex + 1;
        done := done + [t.Value(index)];
        index := 0;
        wasAllOnes := true;
      } else {
        ContinuesOverOctet(t, goal, done, window, index, wasAllOnes, room);
        wasAllOnes := true;
        break;
      }
    }
    if !wasAllOnes {
      ret := -1;
    }
    nbDecoded := decodedIndex;
  }

  // ---------------------------------------------------------------- the codes

  /** The index reached when the bits are read from an index, passing internal ones only. */
  function Follow(t: Table, bits: Bits, index: nat): (r: Option<nat>)
    requires index < SIZE
    ensures r.Some? ==> r.value < SIZE
    decreases |bits|
  {
    if bits == [] then Some(index)
    else if !t.Internal(index) then None
    else
      var next := if bits[0] then index + t.Value(index) else index + 1;
      if next >= SIZE then None else Follow(t, bits[1..], next)
  }

  /** The bits are the beginning of a code. */
  predicate Inside(t: Table, bits: Bits) {
    var n := Follow(t, bits, 0);
    n.Some? && t.Internal(n.value)
  }

  /** Behind these bits a one leads out of the table. */
  predicate Leaves(t: Table, bits: Bits) {
    Inside(t, bits) && var n := Follow(t, bits, 0).value; n + t.Value(n) >= SIZE
  }

  predicate AllOnes(bits: Bits) {
    forall i | 0 <= i < |bits| :: bits[i]
  }

  lemma {:induction false} FollowOn(t: Table, a: Bits, b: Bits, index: nat)
    requires index < SIZE
    ensures Follow(t, a + b, index)
         == if Follow(t, a, index).Some? then Follow(t, b, Follow(t, a, index).value) else None
    decreases |a|
  {
    if a == [] {
      assert a + b == b;
    } else if t.Internal(index) {
      assert (a + b)[1..] == a[1..] + b;
      var next := if a[0] then index + t.Value(index) else index + 1;
      if next < SIZE { FollowOn(t, a[1..], b, next); }
    }
  }

  /** The walk goes where the bits lead. */
  lemma {:induction false} WalkFollows(t: Table, bits: Bits, rest: Bits, index: nat, ones: bool, room: nat)
    requires index < SIZE && Follow(t, bits, index).Some?
    ensures Walk(t, bits + rest, index, ones, room)
         == Walk(t, rest, Follow(t, bits, index).value, ones && AllOnes(bits), room)
    decreases |bits|
  {
    if bits == [] {
      assert bits + rest == rest;
    } else {
      assert (bits + rest)[1..] == bits[1..] + rest && (bits + rest)[0] == bits[0];
      var next := if bits[0] then index + t.Value(index) else index + 1;
      WalkFollows(t, bits[1..], rest, next, ones && bits[0], room);
      assert AllOnes(bits) <==> bits[0] && AllOnes(bits[1..]) by {
        assert forall i | 0 < i < |bits| :: bits[i] == bits[1..][i - 1];
      }
    }
  }

  /** The bits are a code of the octet: they lead from the root to a terminal index that carries it. */
  predicate Leads(t: Table, bits: Bits, c: Byte) {
    var n := Follow(t, bits, 0);
    bits != [] && n.Some? && !t.Internal(n.value) && t.Value(n.value) == c
  }

  /** One code for each octet of a string. */
  predicate Coded(t: Table, codes: seq<Bits>, s: Bytes) {
    |codes| == |s| && forall i | 0 <= i < |s| :: Leads(t, codes[i], s[i])
  }

  function Concat(codes: seq<Bits>): Bits {
    if codes == [] then [] else codes[0] + Concat(codes[1..])
  }

  lemma WalkOverCode(t: Table, code: Bits, c: Byte, rest: Bits, room: nat)
    requires Leads(t, code, c)
    ensures room > 0 ==>
              var r := Walk(t, rest, 0, true, room - 1);
              Walk(t, code + rest, 0, true, room) == Decoded([c] + r.octets, r.ok)
    ensures room == 0 ==> Walk(t, code + rest, 0, true, room) == Decoded([], true)
  {
    WalkFollows(t, code, rest, 0, true, room);
  }

  /** Codes come out as their octets, whatever bits follow. */
  lemma {:induction false} WalkOverCodes(t: Table, codes: seq<Bits>, s: Bytes, tail: Bits, room: nat)
    requires Coded(t, codes, s)
    ensures |s| <= room ==>
              var r := Walk(t, tail, 0, true, room - |s|);
              Walk(t, Concat(codes) + tail, 0, true, room) == Decoded(s + r.octets, r.ok)
    ensures |s| > room ==> Walk(t, Concat(codes) + tail, 0, true, room) == Decoded(s[..room], true)
    decreases |s|
  {
    hide Walk, Leads;
    if s == [] {
      assert Concat(codes) + tail == tail;
    } else {
      var rest := Concat(codes[1..]) + tail;
      assert Concat(codes) + tail == codes[0] + rest;
      WalkOverCode(t, codes[0], s[0], rest, room);
      if room > 0 {
        WalkOverCodes(t, codes[1..], s[1..], tail, room - 1);
        assert forall x: Bytes :: [s[0]] + (s[1..] + x) == s + x;
        if |s| > room { assert [s[0]] + s[1..][..room - 1] == s[..room]; }
      }
    }
  }

  /** Bits that stop inside a code give nothing; they are an error unless they are all ones. */
  lemma WalkStopsInside(t: Table, tail: Bits, room: nat)
    requires Inside(t, tail)
    ensures Walk(t, tail, 0, true, room) == Decoded([], AllOnes(tail))
  {
    WalkFollows(t, tail, [], 0, true, room);
    assert tail + [] == tail;
  }

  /** A one that leads out of the table ends the decoding, whatever follows it. */
  lemma WalkLeaves(t: Table, bits: Bits, tail: Bits, room: nat)
    requires Leaves(t, bits)
    ensures Walk(t, bits + ([true] + tail), 0, true, room) == Decoded([], AllOnes(bits))
  {
    WalkFollows(t, bits, [true] + tail, 0, true, room);
  }

  // ------------------------------------------------- octets from bit strings

  ghost function Pack(bits: Bits): Bytes
    requires |bits| % 8 == 0
  {
    if bits == [] then []
    else
      NumberBound(bits[..8]);
      assert Power2(8) == 0x100;
      [Number(bits[..8])] + Pack(bits[8..])
  }

  lemma {:induction false} NumberBound(b: Bits)
    requires |b| <= 8
    ensures Number(b) < Power2(|b|)
  {
    if b != [] { NumberBound(b[..|b| - 1]); }
  }

  function Power2(n: nat): (p: nat)
    ensures p > 0
  {
    if n == 0 then 1 else 2 * Power2(n - 1)
  }

  lemma {:induction false} BitsOfNumber(b: Bits)
    ensures BitsOf(Number(b), |b|) == b
  {
    if b != [] { BitsOfNumber(b[..|b| - 1]); }
  }

  lemma {:induction false} UnpackPack(bits: Bits)
    requires |bits| % 8 == 0
    ensures Unpack(Pack(bits)) == bits
  {
    if bits != [] {
      BitsOfNumber(bits[..8]);
      UnpackPack(bits[8..]);
      assert Pack(bits)[1..] == Pack(bits[8..]);
    }
  }

  function Padding(n: nat): (p: nat)
    ensures p <= 7 && (n + p) % 8 == 0
  {
    if n % 8 == 0 then 0 else 8 - n % 8
  }

  /** A bit string with ones up to a whole octet. */
  ghost function Padded(bits: Bits): Bytes {
    Pack(bits + Ones(Padding(|bits|)))
  }

  lemma {:induction false} OnesNumber(n: nat)
    ensures BitsBehindOne(Power2(n + 1) - 1) == Ones(n)
  {
    if n > 0 {
      OnesNumber(n - 1);
      assert (Power2(n + 1) - 1) / 2 == Power2(n) - 1 && (Power2(n + 1) - 1) % 2 == 1;
      assert Ones(n) == Ones(n - 1) + [true];
    }
  }

  lemma TwentyNineOnesNumber()
    ensures BitsBehindOne(0x3FFF_FFFF) == Ones(29)
  {
    OnesNumber(29);
    hide BitsBehindOne, Ones;
    assert Power2(10) == 0x400;
    assert Power2(20) == 0x10_0000;
    assert Power2(30) == 0x4000_0000;
  }

  lemma OneMoreOne(tail: Bits)
    ensures Ones(30) + tail == Ones(29) + ([true] + tail) && AllOnes(Ones(29))
  {
  }

  lemma SevenOnesNumber()
    ensures BitsBehindOne(0xFF) == Ones(7)
  {
    OnesNumber(7);
    hide BitsBehindOne, Ones;
    assert Power2(4) == 16;
    assert Power2(8) == 0x100;
  }

  lemma OnesStayInside(t: Table, n: nat)
    requires n <= 7 && Inside(t, Ones(7))
    ensures Inside(t, Ones(n)) && AllOnes(Ones(n))
  {
    assert Ones(7) == Ones(n) + Ones(7 - n);
    FollowOn(t, Ones(n), Ones(7 - n), 0);
  }

  /** Round trip of string literals, for any table and any codes that lead to the octets:
      padded with ones to whole octets they decode to the string, or to as much of it as fits. */
  lemma DecodeInvertsEncode(t: Table, codes: seq<Bits>, s: Bytes, room: nat)
    requires Coded(t, codes, s)
    requires Inside(t, Ones(7))
    ensures Decode(t, Padded(Concat(codes)), room) == Decoded(if |s| <= room then s else s[..room], true)
  {
    hide Walk, Follow, Inside, Coded, Leads, Concat, Pack, Unpack, AllOnes;
    var bits := Concat(codes);
    var pad := Ones(Padding(|bits|));
    UnpackPack(bits + pad);
    WalkOverCodes(t, codes, s, pad, room);
    OnesStayInside(t, |pad|);
    if |s| <= room { WalkStopsInside(t, pad, room - |s|); }
    assert s + [] == s;
  }

  /** Codes cut off inside the last one, with or without padding behind whole octets: the
      octets of the whole codes, and success exactly when the rest is all ones. */
  lemma DecodeTruncated(t: Table, codes: seq<Bits>, s: Bytes, tail: Bits, room: nat)
    requires Coded(t, codes, s) && |s| <= room && (|Concat(codes)| + |tail|) % 8 == 0
    requires Inside(t, tail)
    ensures Decode(t, Pack(Concat(codes) + tail), room) == Decoded(s, AllOnes(tail))
  {
    hide *;
    WalkStopsInside(t, tail, room - |s|);
    DecodeEnd(t, codes, s, tail, AllOnes(tail), room);
  }

  /** Whole codes and then bits that lead out of the table: the octets of the codes, and success
      exactly when the bits up to there are all ones. */
  lemma DecodeLeaves(t: Table, codes: seq<Bits>, s: Bytes, bits: Bits, tail: Bits, room: nat)
    requires Coded(t, codes, s) && |s| <= room && (|Concat(codes)| + |bits| + 1 + |tail|) % 8 == 0
    requires Leaves(t, bits)
    ensures Decode(t, Pack(Concat(codes) + (bits + ([true] + tail))), room) == Decoded(s, AllOnes(bits))
  {
    hide *;
    WalkLeaves(t, bits, tail, room - |s|);
    DecodeEnd(t, codes, s, bits + ([true] + tail), AllOnes(bits), room);
  }

  /** Whole codes, then bits that give nothing more. */
  lemma DecodeEnd(t: Table, codes: seq<Bits>, s: Bytes, end: Bits, ok: bool, room: nat)
    requires Coded(t, codes, s) && |s| <= room && (|Concat(codes)| + |end|) % 8 == 0
    requires Walk(t, end, 0, true, room - |s|) == Decoded([], ok)
    ensures Decode(t, Pack(Concat(codes) + end), room) == Decoded(s, ok)
  {
    hide Walk, Coded, Leads, Concat, Pack, Unpack;
    UnpackPack(Concat(codes) + end);
    WalkOverCodes(t, codes, s, end, room);
    assert s + [] == s;
  }
}
