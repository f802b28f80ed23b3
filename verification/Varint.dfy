/** QUIC variable-length integers (section 16 of RFC 9000): the two top bits of
    the first octet give the length, the rest is the value in network order. */
module Varint {
  import opened Bytes

  const LIMIT: nat := 0x4000_0000_0000_0000

  datatype Parsed = Incomplete | Complete(value: nat, used: nat)

  function Length(first: Byte): (n: nat)
    ensures n == 1 || n == 2 || n == 4 || n == 8
  {
    if first < 0x40 then 1 else if first < 0x80 then 2 else if first < 0xC0 then 4 else 8
  }

  function BigEndian(s: Bytes): nat {
    if s == [] then 0 else 0x100 * BigEndian(s[..|s| - 1]) + s[|s| - 1]
  }

  predicate IsVarint(s: Bytes) {
    s != [] && |s| == Length(s[0])
  }

  function Value(s: Bytes): nat
    requires IsVarint(s)
  {
    BigEndian([s[0] % 0x40] + s[1..])
  }

  /** The first varint of a string, when all of its octets are there. */
  function Parse(s: Bytes): Parsed {
    if s == [] || |s| < Length(s[0]) then Incomplete
    else Complete(Value(s[..Length(s[0])]), Length(s[0]))
  }

  /** The n low-order octets of v in network order. */
  function ToBigEndian(v: nat, n: nat): (s: Bytes)
    ensures |s| == n
  {
    if n == 0 then [] else ToBigEndian(v / 0x100, n - 1) + [v % 0x100]
  }

  function EncodedLength(v: nat): (n: nat) {
    if v < 0x40 then 1 else if v < 0x4000 then 2 else if v < 0x4000_0000 then 4 else 8
  }

  function Tag(n: nat): Byte {
    if n == 1 then 0 else if n == 2 then 0x40 else if n == 4 then 0x80 else 0xC0
  }

  /** The minimal encoding of v; meaningful for v below LIMIT. */
  function Encode(v: nat): (s: Bytes)
    ensures |s| == EncodedLength(v)
  {
    var n := EncodedLength(v);
    var d := ToBigEndian(v, n);
    [Tag(n) + d[0] % 0x40] + d[1..]
  }

  function Power256(n: nat): nat {
    if n == 0 then 1 else 0x100 * Power256(n - 1)
  }

  lemma {:induction false} BigEndianInverse(v: nat, n: nat)
    requires v < Power256(n)
    ensures BigEndian(ToBigEndian(v, n)) == v
  {
    if n > 0 {
      BigEndianInverse(v / 0x100, n - 1);
      var s := ToBigEndian(v, n);
      assert s[..|s| - 1] == ToBigEndian(v / 0x100, n - 1);
    }
  }

  lemma {:induction false} BigEndianBound(s: Bytes)
    ensures BigEndian(s) < Power256(|s|)
  {
    if s != [] { BigEndianBound(s[..|s| - 1]); }
  }

  /** The first octet is the most significant one. */
  lemma {:induction false} BigEndianHead(s: Bytes)
    requires s != []
    ensures BigEndian(s) == s[0] * Power256(|s| - 1) + BigEndian(s[1..])
  {
    if |s| == 1 {
      assert s[..0] == [] && s[1..] == [];
      assert Power256(0) == 1;
    } else {
      var t := s[..|s| - 1];
      BigEndianHead(t);
      assert t[1..] == s[1..][..|s[1..]| - 1];
      assert BigEndian(s) == 0x100 * BigEndian(t) + s[|s| - 1];
      assert BigEndian(s[1..]) == 0x100 * BigEndian(t[1..]) + s[|s| - 1];
      assert Power256(|s| - 1) == 0x100 * Power256(|t| - 1);
      assert 0x100 * (s[0] * Power256(|t| - 1)) == s[0] * Power256(|s| - 1);
    }
  }

  lemma Powers()
    ensures Power256(0) == 1 && Power256(1) == 0x100 && Power256(2) == 0x1_0000
    ensures Power256(3) == 0x100_0000 && Power256(4) == 0x1_0000_0000
    ensures Power256(7) == 0x100_0000_0000_0000 && Power256(8) == 0x1_0000_0000_0000_0000
  {
    assert Power256(5) == 0x100 * Power256(4);
    assert Power256(6) == 0x100 * Power256(5);
  }

  lemma ValueBound(s: Bytes)
    requires IsVarint(s)
    ensures Value(s) < LIMIT
  {
    var d: Bytes := [s[0] % 0x40] + s[1..];
    BigEndianHead(d);
    assert d[1..] == s[1..];
    BigEndianBound(s[1..]);
    Powers();
  }

  lemma Monotone(k: nat, a: nat, p: nat)
    requires k <= a
    ensures k * p <= a * p
  {
    assert a * p == k * p + (a - k) * p;
  }

  lemma Quotient(a: nat, p: nat, k: nat)
    requires a * p < k * p
    ensures a < k
  {
    if a >= k { Monotone(k, a, p); }
  }

  /** The top octet of a value that fits leaves the two tag bits free. */
  lemma TopOctet(v: nat)
    requires v < LIMIT
    ensures var n := EncodedLength(v); v < Power256(n) && ToBigEndian(v, n)[0] < 0x40
  {
    var n := EncodedLength(v);
    Powers();
    BigEndianInverse(v, n);
    var d := ToBigEndian(v, n);
    BigEndianHead(d);
    assert v < 0x40 * Power256(n - 1);
    Quotient(d[0], Power256(n - 1), 0x40);
  }

  /** Round trip: whatever follows it, an encoding parses to its value and to its own length. */
  lemma EncodeParses(v: nat, rest: Bytes)
    requires v < LIMIT
    ensures IsVarint(Encode(v)) && Value(Encode(v)) == v
    ensures Parse(Encode(v) + rest) == Complete(v, |Encode(v)|)
  {
    var n := EncodedLength(v);
    var d := ToBigEndian(v, n);
    TopOctet(v);
    var e := Encode(v);
    assert e[0] == Tag(n) + d[0];
    assert Length(e[0]) == n;
    assert [e[0] % 0x40] + e[1..] == d;
    BigEndianInverse(v, n);
    assert (e + rest)[..n] == e;
  }

  lemma ParseUsed(s: Bytes)
    ensures Parse(s).Complete? ==> 0 < Parse(s).used <= |s|
  {
  }

  /** Octets behind a complete varint do not matter. */
  lemma ParsePrefix(a: Bytes, b: Bytes)
    requires Parse(a).Complete?
    ensures Parse(a + b) == Parse(a) && 0 < Parse(a).used <= |a|
  {
    assert (a + b)[..Length(a[0])] == a[..Length(a[0])];
  }

  lemma VarintParses(v: Bytes, rest: Bytes)
    requires IsVarint(v)
    ensures Parse(v + rest) == Complete(Value(v), |v|)
  {
    assert (v + rest)[..|v|] == v;
  }

  /** No shorter octet string encodes the same value. */
  lemma EncodeIsMinimal(s: Bytes)
    requires IsVarint(s)
    ensures |Encode(Value(s))| <= |s|
  {
    var d: Bytes := [s[0] % 0x40] + s[1..];
    BigEndianHead(d);
    assert d[1..] == s[1..];
    BigEndianBound(s[1..]);
    Powers();
  }

  lemma BigEndianPrefix(d: Bytes, k: nat)
    requires k < |d|
    ensures BigEndian(d[..k + 1]) == 0x100 * BigEndian(d[..k]) + d[k]
  {
    assert d[..k + 1][..k] == d[..k];
  }

  /** h3zero_varint_decode: the length consumed, 0 when the buffer is too short. */
  method Decode(bytes: Bytes, maxBytes: nat) returns (length: nat, n64: nat)
    requires bytes != [] && maxBytes <= |bytes|
    ensures maxBytes < Length(bytes[0]) ==> length == 0 && n64 == 0
    ensures Length(bytes[0]) <= maxBytes ==> length == Length(bytes[0]) && n64 == Value(bytes[..length])
  {
    length := Length(bytes[0]);
    if length > maxBytes {
      length := 0;
      n64 := 0;
    } else {
      ghost var d: Bytes := [bytes[0] % 0x40] + bytes[1..length];
      var v: nat := bytes[0] % 0x40;
      BigEndianPrefix(d, 0);
      for i := 1 to length
        invariant v == BigEndian(d[..i])
      {
        v := v * 0x100;
        v := v + bytes[i];
        BigEndianPrefix(d, i);
      }
      n64 := v;
      assert d[..length] == d;
      assert bytes[..length][1..] == bytes[1..length];
    }
  }

  /** The straight-line decoder of the WebTransport code (wt_varint_decode). */
  function WtDecode(p: Bytes): Parsed {
    if p == [] then Incomplete
    else
      var v: nat := p[0] % 0x40;
      if p[0] < 0x40 then Complete(v, 1)
      else if p[0] < 0x80 then
        if |p| < 2 then Incomplete else Complete(v * 0x100 + p[1], 2)
      else if p[0] < 0xC0 then
        if |p| < 4 then Incomplete
        else Complete(v * 0x100_0000 + (p[1] as nat) * 0x1_0000 + (p[2] as nat) * 0x100 + p[3], 4)
      else
        if |p| < 8 then Incomplete
        else Complete(v * 0x100_0000_0000_0000 + (p[1] as nat) * 0x1_0000_0000_0000 + (p[2] as nat) * 0x100_0000_0000
                      + (p[3] as nat) * 0x1_0000_0000 + (p[4] as nat) * 0x100_0000 + (p[5] as nat) * 0x1_0000
                       + (p[6] as nat) * 0x100 + p[7], 8)
  }

  lemma BigEndian4(d: Bytes)
    requires |d| >= 4
    ensures BigEndian(d[..1]) == d[0]
    ensures BigEndian(d[..2]) == (d[0] as nat) * 0x100 + d[1]
    ensures BigEndian(d[..4]) == (d[0] as nat) * 0x100_0000 + (d[1] as nat) * 0x1_0000 + (d[2] as nat) * 0x100 + d[3]
  {
    BigEndianPrefix(d, 0);
    BigEndianPrefix(d, 1);
    BigEndianPrefix(d, 2);
    BigEndianPrefix(d, 3);
  }

  lemma BigEndian8(d: Bytes)
    requires |d| == 8
    ensures BigEndian(d) == 0x1_0000_0000 * BigEndian(d[..4]) + (d[4] as nat) * 0x100_0000 + (d[5] as nat) * 0x1_0000
                            + (d[6] as nat) * 0x100 + d[7]
  {
    BigEndianPrefix(d, 4);
    BigEndianPrefix(d, 5);
    BigEndianPrefix(d, 6);
    BigEndianPrefix(d, 7);
    assert d[..8] == d;
  }

  /** Both decoders of the repository are the same function. */
  lemma WtDecodeIsParse(p: Bytes)
    ensures WtDecode(p) == Parse(p)
  {
    if p != [] && Length(p[0]) <= |p| {
      var n := Length(p[0]);
      var d: Bytes := [p[0] % 0x40] + p[1..n];
      assert p[..n][1..] == p[1..n];
      assert Value(p[..n]) == BigEndian(d);
      var e: Bytes := d + [0, 0, 0];
      assert e[..n] == d || n == 8;
      assert n < 4 || d[..4] == e[..4];
      BigEndian4(e);
      if n == 8 { BigEndian8(d); }
    }
  }

  lemma SplitTwo(v: nat, m: nat)
    ensures ToBigEndian(v, m + 2) == ToBigEndian(v / 0x1_0000, m) + [v / 0x100 % 0x100, v % 0x100]
  {
    var a := v / 0x100;
    assert a / 0x100 == v / 0x1_0000;
    assert ToBigEndian(a, m + 1) == ToBigEndian(v / 0x1_0000, m) + [a % 0x100];
    assert ToBigEndian(v, m + 2) == ToBigEndian(a, m + 1) + [v % 0x100];
  }

  /** The octets of an encoding, as the shifts and masks of the C encoders produce them. */
  function Octets(v: nat): Bytes
    requires v < LIMIT
  {
    if v < 0x40 then [v]
    else if v < 0x4000 then [0x40 + v / 0x100, v % 0x100]
    else if v < 0x4000_0000 then [0x80 + v / 0x100_0000] + Low4(v)[1..]
    else [0xC0 + v / 0x100_0000_0000_0000] + Low8(v)[1..]
  }

  function Low4(v: nat): Bytes {
    [v / 0x100_0000 % 0x100, v / 0x1_0000 % 0x100, v / 0x100 % 0x100, v % 0x100]
  }

  function Low8(v: nat): Bytes {
    [v / 0x100_0000_0000_0000 % 0x100, v / 0x1_0000_0000_0000 % 0x100, v / 0x100_0000_0000 % 0x100,
     v / 0x1_0000_0000 % 0x100] + Low4(v)
  }

  lemma EncodeIsOctets(v: nat)
    requires v < LIMIT
    ensures Encode(v) == Octets(v)
  {
    if v < 0x40 {
      assert ToBigEndian(v, 1) == ToBigEndian(v / 0x100, 0) + [v % 0x100];
      TagTop(v, [v], v);
    } else if v < 0x4000 {
      SplitTwo(v, 0);
      TagTop(v, [v / 0x100, v % 0x100], v / 0x100);
    } else if v < 0x4000_0000 {
      Encode4(v);
    } else {
      Encode8(v);
    }
  }

  /** The examples of appendix A.1 of RFC 9000. */
  lemma Examples()
    ensures Parse([0xC2, 0x19, 0x7C, 0x5E, 0xFF, 0x14, 0xE8, 0x8C]) == Complete(151_288_809_941_952_652, 8)
    ensures Parse([0x9D, 0x7F, 0x3E, 0x7D]) == Complete(494_878_333, 4)
    ensures Parse([0x7B, 0xBD]) == Complete(15_293, 2)
    ensures Parse([0x25]) == Complete(37, 1) && Parse([0x40, 0x25]) == Complete(37, 2)
  {
    hide *;
    LongestExample();
    OtherExamples();
    LongThirtySeven();
  }

  lemma LongestExample()
    ensures Parse([0xC2, 0x19, 0x7C, 0x5E, 0xFF, 0x14, 0xE8, 0x8C]) == Complete(151_288_809_941_952_652, 8)
  {
    hide Parse;
    var s: Bytes := [0xC2, 0x19, 0x7C, 0x5E, 0xFF, 0x14, 0xE8, 0x8C];
    assert Octets(151_288_809_941_952_652) == s;
    hide Octets;
    OctetsParse(151_288_809_941_952_652, s);
  }

  lemma OtherExamples()
    ensures Parse([0x9D, 0x7F, 0x3E, 0x7D]) == Complete(494_878_333, 4)
    ensures Parse([0x7B, 0xBD]) == Complete(15_293, 2)
    ensures Parse([0x25]) == Complete(37, 1)
  {
    hide Parse;
    OctetsParse(494_878_333, [0x9D, 0x7F, 0x3E, 0x7D]);
    OctetsParse(15_293, [0x7B, 0xBD]);
    OctetsParse(37, [0x25]);
  }

  lemma OctetsParse(v: nat, s: Bytes)
    requires v < LIMIT && s == Octets(v)
    ensures Parse(s) == Complete(v, |s|)
  {
    EncodeIsOctets(v);
    EncodeParses(v, []);
    assert s + [] == s;
  }

  lemma LongThirtySeven()
    ensures Parse([0x40, 0x25]) == Complete(37, 2)
  {
    var s: Bytes := [0x40, 0x25];
    assert s[..2] == s && [s[0] % 0x40] + s[1..] == [0x00, 0x25];
    var none: Bytes := [];
    var zero: Bytes := [0x00];
    assert zero[..0] == none && BigEndian(none) == 0 && BigEndian(zero) == 0;
    assert [0x00, 0x25][..1] == zero;
  }

  lemma Encode4(v: nat)
    requires 0x4000 <= v < 0x4000_0000
    ensures Encode(v) == [0x80 + v / 0x100_0000] + Low4(v)[1..]
  {
    FourOctets(v);
    TagTop(v, Low4(v), v / 0x100_0000);
  }

  lemma Encode8(v: nat)
    requires 0x4000_0000 <= v < LIMIT
    ensures Encode(v) == [0xC0 + v / 0x100_0000_0000_0000] + Low8(v)[1..]
  {
    var low := Low8(v);
    var top := v / 0x100_0000_0000_0000;
    assert top < 0x40;
    assert low[0] == top;
    EightOctets(v);
    TagTop(v, low, top);
  }

  lemma TagTop(v: nat, d: Bytes, top: nat)
    requires ToBigEndian(v, EncodedLength(v)) == d && top < 0x40 && d[0] == top
    ensures Encode(v) == [Tag(EncodedLength(v)) + top] + d[1..]
  {
  }

  lemma FourOctets(v: nat)
    ensures ToBigEndian(v, 4) == Low4(v)
  {
    SplitTwo(v, 2);
    SplitTwo(v / 0x1_0000, 0);
    Quotients(v);
  }

  lemma EightOctets(v: nat)
    ensures ToBigEndian(v, 8) == Low8(v)
  {
    var h := v / 0x1_0000;
    var g := h / 0x1_0000;
    var f := g / 0x1_0000;
    SplitTwo(v, 6);
    SplitTwo(h, 4);
    SplitTwo(g, 2);
    SplitTwo(f, 0);
    Quotients(v);
  }

  lemma Quotients(v: nat)
    ensures var h := v / 0x1_0000; var g := h / 0x1_0000; var f := g / 0x1_0000;
            h / 0x100 == v / 0x100_0000 && g == v / 0x1_0000_0000 && g / 0x100 == v / 0x100_0000_0000
            && f == v / 0x1_0000_0000_0000 && f / 0x100 == v / 0x100_0000_0000_0000
  {
  }

  /** quic_varint_encode: the octets written, 0 when the value does not fit in 62 bits. */
  method QuicEncode(v: nat, out: array<Byte>, off: nat) returns (n: nat)
    requires off + 8 <= out.Length
    modifies out
    ensures v < LIMIT ==> n == |Encode(v)| && out[off..off + n] == Encode(v)
    ensures v >= LIMIT ==> n == 0
    ensures out[..off] == old(out[..off]) && out[off + n..] == old(out[off + n..])
  {
    if v < LIMIT { EncodeIsOctets(v); }
    if v < 0x40 {
      out[off] := v;
      n := 1;
    } else if v < 0x4000 {
      out[off] := 0x40 + v / 0x100;
      out[off + 1] := v % 0x100;
      n := 2;
    } else if v < 0x4000_0000 {
      out[off] := 0x80 + v / 0x100_0000;
      out[off + 1] := v / 0x1_0000 % 0x100;
      out[off + 2] := v / 0x100 % 0x100;
      out[off + 3] := v % 0x100;
      n := 4;
    } else if v < LIMIT {
      out[off] := 0xC0 + v / 0x100_0000_0000_0000;
      out[off + 1] := v / 0x1_0000_0000_0000 % 0x100;
      out[off + 2] := v / 0x100_0000_0000 % 0x100;
      out[off + 3] := v / 0x1_0000_0000 % 0x100;
      out[off + 4] := v / 0x100_0000 % 0x100;
      out[off + 5] := v / 0x1_0000 % 0x100;
      out[off + 6] := v / 0x100 % 0x100;
      out[off + 7] := v % 0x100;
      n := 8;
    } else {
      n := 0;
    }
  }

  /** The low-order 62 bits. */
  function Masked(v: nat): (w: nat)
    ensures w < LIMIT && (v < LIMIT ==> w == v)
  {
    v % LIMIT
  }

  /** The eight-octet form of any value below LIMIT. */
  function LongForm(v: nat): (s: Bytes)
    requires v < LIMIT
    ensures |s| == 8
  {
    [0xC0 + v / 0x100_0000_0000_0000] + Low8(v)[1..]
  }

  lemma LongFormValue(v: nat)
    requires v < LIMIT
    ensures IsVarint(LongForm(v)) && Value(LongForm(v)) == v
  {
    var d := Low8(v);
    Low8Value(v);
    var s := LongForm(v);
    var top := v / 0x100_0000_0000_0000;
    assert top < 0x40 && s[0] == 0xC0 + top && s[0] % 0x40 == top;
    assert d == [top] + d[1..] && s[1..] == d[1..];
  }

  lemma Low8Value(v: nat)
    requires v < LIMIT
    ensures BigEndian(Low8(v)) == v && Low8(v)[0] == v / 0x100_0000_0000_0000
  {
    hide BigEndian;
    Powers();
    EightOctets(v);
    BigEndianInverse(v, 8);
  }

  /** Eight bits of a sum whose second part is a multiple of 256. */
  lemma ShiftOctet(x: nat, y: nat, z: nat)
    requires x == y + 0x100 * z
    ensures x / 0x100 == y / 0x100 + z && x % 0x100 == y % 0x100
  {
  }

  lemma ShiftAgain(v: nat)
    ensures v / 0x100 / 0x100 == v / 0x1_0000
    ensures v / 0x1_0000 / 0x100 == v / 0x100_0000
    ensures v / 0x100_0000 / 0x100 == v / 0x1_0000_0000
    ensures v / 0x1_0000_0000 / 0x100 == v / 0x100_0000_0000
    ensures v / 0x100_0000_0000 / 0x100 == v / 0x1_0000_0000_0000
    ensures v / 0x1_0000_0000_0000 / 0x100 == v / 0x100_0000_0000_0000
  {
  }

  lemma TopBits(x: nat, y: nat, z: nat)
    requires x == y + 0x40 * z && y < 0x40
    ensures x % 0x40 == y
  {
  }

  lemma DigitsAbove(v: nat, w: nat, q: nat)
    requires v == w + LIMIT * q && w < LIMIT
    ensures v % 0x100 == w % 0x100
    ensures v / 0x100 % 0x100 == w / 0x100 % 0x100
    ensures v / 0x1_0000 % 0x100 == w / 0x1_0000 % 0x100
    ensures v / 0x100_0000 % 0x100 == w / 0x100_0000 % 0x100
    ensures v / 0x1_0000_0000 % 0x100 == w / 0x1_0000_0000 % 0x100
    ensures v / 0x100_0000_0000 % 0x100 == w / 0x100_0000_0000 % 0x100
    ensures v / 0x1_0000_0000_0000 % 0x100 == w / 0x1_0000_0000_0000 % 0x100
    ensures v / 0x100_0000_0000_0000 % 0x40 == w / 0x100_0000_0000_0000
  {
    var v1, v2, v3, v4, v5, v6, v7 := Shifts(v);
    var w1, w2, w3, w4, w5, w6, w7 := Shifts(w);
    ShiftOctet(v, w, 0x40_0000_0000_0000 * q);
    ShiftOctet(v1, w1, 0x4000_0000_0000 * q);
    ShiftOctet(v2, w2, 0x40_0000_0000 * q);
    ShiftOctet(v3, w3, 0x4000_0000 * q);
    ShiftOctet(v4, w4, 0x40_0000 * q);
    ShiftOctet(v5, w5, 0x4000 * q);
    ShiftOctet(v6, w6, 0x40 * q);
    TopBits(v7, w7, q);
  }

  lemma Shifts(v: nat) returns (v1: nat, v2: nat, v3: nat, v4: nat, v5: nat, v6: nat, v7: nat)
    ensures v1 == v / 0x100 && v2 == v1 / 0x100 && v3 == v2 / 0x100 && v4 == v3 / 0x100
    ensures v5 == v4 / 0x100 && v6 == v5 / 0x100 && v7 == v6 / 0x100
    ensures v2 == v / 0x1_0000
    ensures v3 == v / 0x100_0000
    ensures v4 == v / 0x1_0000_0000
    ensures v5 == v / 0x100_0000_0000
    ensures v6 == v / 0x1_0000_0000_0000
    ensures v7 == v / 0x100_0000_0000_0000
    ensures v < LIMIT ==> v7 < 0x40
  {
    v1, v2, v3 := v / 0x100, v / 0x1_0000, v / 0x100_0000;
    v4, v5, v6 := v / 0x1_0000_0000, v / 0x100_0000_0000, v / 0x1_0000_0000_0000;
    v7 := v / 0x100_0000_0000_0000;
    ShiftAgain(v);
  }

  /** The low-order octets do not see what is above 62 bits. */
  lemma LowOctets(v: nat)
    ensures Low8(v)[1..] == Low8(Masked(v))[1..]
    ensures v / 0x100_0000_0000_0000 % 0x40 == Masked(v) / 0x100_0000_0000_0000
  {
    DigitsAbove(v, v % LIMIT, v / LIMIT);
  }

  lemma ShortForms(v: nat)
    requires v < 0x4000_0000
    ensures v < 0x40 ==> Encode(v) == [v]
    ensures 0x40 <= v < 0x4000 ==> Encode(v) == [0x40 + v / 0x100, v % 0x100]
    ensures 0x4000 <= v ==>
              Encode(v) == [0x80 + v / 0x100_0000, v / 0x1_0000 % 0x100, v / 0x100 % 0x100, v % 0x100]
  {
    EncodeIsOctets(v);
    hide Encode;
  }

  lemma OctetsLong(v: nat)
    requires 0x4000_0000 <= v < LIMIT
    ensures Encode(v) == LongForm(v)
  {
    EncodeIsOctets(v);
    hide Encode;
  }

  /** wt_varint_encode: like quic_varint_encode, but 0 when the room is too small, and the
      value modulo 2^62 in the long form when it has more bits. */
  method WtEncode(v: nat, buf: array<Byte>, off: nat, cap: nat) returns (n: nat)
    requires off + cap <= buf.Length
    modifies buf
    ensures n == if EncodedLength(v) <= cap then EncodedLength(v) else 0
    ensures n > 0 && v < LIMIT ==> buf[off..off + n] == Encode(v)
    ensures n > 0 && v >= LIMIT ==> buf[off..off + n] == LongForm(Masked(v))
    ensures buf[..off] == old(buf[..off]) && buf[off + n..] == old(buf[off + n..])
  {
    if v <= 0x3FFF_FFFF {
      n := PutShort(v, buf, off, cap);
    } else {
      if cap < 8 { return 0; }
      if v < LIMIT { OctetsLong(v); }
      hide Encode, LongForm, Masked;
      PutLong(v, buf, off);
      n := 8;
    }
  }

  /** The forms of one, two and four octets. */
  method PutShort(v: nat, buf: array<Byte>, off: nat, cap: nat) returns (n: nat)
    requires v <= 0x3FFF_FFFF && off + cap <= buf.Length
    modifies buf
    ensures n == if EncodedLength(v) <= cap then EncodedLength(v) else 0
    ensures n > 0 ==> buf[off..off + n] == Encode(v)
    ensures buf[..off] == old(buf[..off]) && buf[off + n..] == old(buf[off + n..])
  {
    ShortForms(v);
    hide Encode;
    if v <= 0x3F {
      if cap < 1 { return 0; }
      buf[off] := v;
      n := 1;
    } else if v <= 0x3FFF {
      if cap < 2 { return 0; }
      buf[off] := 0x40 + v / 0x100;
      buf[off + 1] := v % 0x100;
      n := 2;
    } else {
      if cap < 4 { return 0; }
      buf[off] := 0x80 + v / 0x100_0000;
      buf[off + 1] := v / 0x1_0000 % 0x100;
      buf[off + 2] := v / 0x100 % 0x100;
      buf[off + 3] := v % 0x100;
      n := 4;
    }
  }

  /** The eight octets of the long form. */
  method PutLong(v: nat, buf: array<Byte>, off: nat)
    requires off + 8 <= buf.Length
    modifies buf
    ensures buf[off..off + 8] == LongForm(Masked(v))
    ensures buf[..off] == old(buf[..off]) && buf[off + 8..] == old(buf[off + 8..])
  {
    LowOctets(v);
    hide Masked;
    ghost var low := Low8(v);
    buf[off] := 0xC0 + v / 0x100_0000_0000_0000 % 0x40;
    buf[off + 1] := v / 0x1_0000_0000_0000 % 0x100;
    buf[off + 2] := v / 0x100_0000_0000 % 0x100;
    buf[off + 3] := v / 0x1_0000_0000 % 0x100;
    buf[off + 4] := v / 0x100_0000 % 0x100;
    buf[off + 5] := v / 0x1_0000 % 0x100;
    buf[off + 6] := v / 0x100 % 0x100;
    buf[off + 7] := v % 0x100;
    assert buf[off + 1..off + 8] == low[1..];
    assert buf[off..off + 8] == [buf[off]] + buf[off + 1..off + 8];
  }
}
