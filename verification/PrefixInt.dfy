/** Prefixed integers (section 5.1 of RFC 7541, section 4.1.1 of RFC 9204). The
    prefix flags above an n-bit mask are zero below it, so the C "or" is a sum. */
module PrefixInt {
  import opened Bytes

  /** The decoder gives up after nine continuation octets: 63 bits. */
  const MAX_GROUPS: nat := 9

  datatype IntResult = Bad | Good(value: nat, used: nat)

  predicate IsMask(m: Byte) {
    m == 0x01 || m == 0x03 || m == 0x07 || m == 0x0F || m == 0x1F || m == 0x3F || m == 0x7F || m == 0xFF
  }

  /** The flags of a first octet do not reach into the mask. */
  predicate Disjoint(prefix: Byte, mask: Byte) {
    IsMask(mask) && prefix % (mask + 1) == 0 && prefix + mask < 0x100
  }

  /** Seven bits at a time, least significant first, every octet but the last marked. */
  function Groups(v: nat): (s: Bytes)
    ensures s != []
  {
    if v < 0x80 then [v] else [0x80 + v % 0x80] + Groups(v / 0x80)
  }

  function Encode(prefix: Byte, mask: Byte, v: nat): (s: Bytes)
    requires Disjoint(prefix, mask)
    ensures s != []
  {
    if v < mask then [prefix + v] else [prefix + mask] + Groups(v - mask)
  }

  function ReadGroups(s: Bytes, left: nat): IntResult {
    if left == 0 || s == [] then Bad
    else if s[0] < 0x80 then Good(s[0], 1)
    else
      match ReadGroups(s[1..], left - 1)
      case Bad => Bad
      case Good(v, used) => Good(s[0] % 0x80 + 0x80 * v, used + 1)
  }

  /** An octet "and" a mask of low-order bits. */
  function Low(b: Byte, mask: Byte): (r: Byte)
    requires IsMask(mask)
    ensures r <= mask
  {
    b % (mask + 1)
  }

  function Decode(s: Bytes, mask: Byte): IntResult
    requires IsMask(mask)
  {
    if s == [] then Bad
    else
      var low := Low(s[0], mask);
      if low < mask then Good(low, 1)
      else
        match ReadGroups(s[1..], MAX_GROUPS)
        case Bad => Bad
        case Good(v, used) => Good(v + mask, used + 1)
  }

  function Power128(n: nat): (p: nat)
    ensures p > 0
  {
    if n == 0 then 1 else 0x80 * Power128(n - 1)
  }

  lemma MaxPower()
    ensures Power128(MAX_GROUPS) == 0x8000_0000_0000_0000
  {
    assert Power128(3) == 0x80 * Power128(2) == 0x20_0000;
    assert Power128(5) == 0x80 * Power128(4) == 0x8_0000_0000;
    assert Power128(7) == 0x80 * Power128(6) == 0x2_0000_0000_0000;
    assert Power128(9) == 0x80 * Power128(8);
  }

  // ------------------------------------------------------------- round trip

  /** Exactly the values below 128^left survive. */
  lemma {:induction false} ReadInvertsGroups(v: nat, left: nat, rest: Bytes)
    requires left > 0
    ensures ReadGroups(Groups(v) + rest, left)
         == if v < Power128(left) then Good(v, |Groups(v)|) else Bad
  {
    var s := Groups(v) + rest;
    if v < 0x80 {
      assert Power128(left) == 0x80 * Power128(left - 1);
    } else if left == 1 {
      assert Power128(1) == 0x80 * Power128(0);
    } else {
      ReadInvertsGroups(v / 0x80, left - 1, rest);
      assert s[1..] == Groups(v / 0x80) + rest;
      assert v < 0x80 * Power128(left - 1) <==> v / 0x80 < Power128(left - 1);
    }
  }

  /** Decoding undoes encoding when the continuation fits in 63 bits, and rejects larger values. */
  lemma DecodeInvertsEncode(prefix: Byte, mask: Byte, v: nat, rest: Bytes)
    requires Disjoint(prefix, mask)
    ensures Decode(Encode(prefix, mask, v) + rest, mask)
         == if v < mask + 0x8000_0000_0000_0000 then Good(v, |Encode(prefix, mask, v)|) else Bad
  {
    hide Groups, ReadGroups, Low, Power128;
    LowBits(prefix, mask, if v < mask then v else mask);
    if v >= mask {
      var groups := Groups(v - mask);
      EncodeForm(prefix + mask, groups, rest);
      ReadInvertsGroups(v - mask, MAX_GROUPS, rest);
      MaxPower();
    }
  }

  /** The continuation octets by their places: octet k holds the k-th digit to base 128, marked in
      all octets but the last, and there are as many octets as the number has digits. */
  lemma {:induction false} GroupAt(v: nat, k: nat)
    requires k < |Groups(v)|
    ensures Groups(v)[k] == v / Power128(k) % 128 + if k < |Groups(v)| - 1 then 128 else 0
    ensures v < Power128(|Groups(v)|) && (|Groups(v)| > 1 ==> v >= Power128(|Groups(v)| - 1))
  {
    assert Power128(0) == 1;
    if v < 0x80 {
      assert Power128(1) == 0x80 * Power128(0);
    } else {
      GroupAt(v / 0x80, if k > 0 then k - 1 else 0);
      var n := |Groups(v)|;
      assert Power128(n) == 0x80 * Power128(n - 1);
      if n > 2 { assert Power128(n - 1) == 0x80 * Power128(n - 2); } else { assert Power128(1) == 0x80; }
      if k > 0 { DivideTwice(v, Power128(k - 1)); }
    }
  }

  lemma DivideTwice(v: nat, p: nat)
    requires p > 0
    ensures v / (0x80 * p) == v / 0x80 / p
  {
    var q, r := v / 0x80 / p, v / 0x80 % p;
    assert v / 0x80 == q * p + r;
    assert v == 0x80 * (q * p + r) + v % 0x80;
    var rest := 0x80 * r + v % 0x80;
    assert 0x80 * (q * p + r) == q * (0x80 * p) + 0x80 * r;
    assert v == q * (0x80 * p) + rest && 0 <= rest < 0x80 * p;
    QuotientIs(v, 0x80 * p, q, rest);
  }

  lemma QuotientIs(v: nat, d: nat, q: nat, r: nat)
    requires d > 0 && v == q * d + r && r < d
    ensures v / d == q
  {
    var x := v / d - q;
    assert (v / d) * d - q * d == x * d;
    Scaled(x, d);
  }

  lemma Scaled(x: int, d: int)
    requires d > 0
    ensures (x >= 1 ==> x * d >= d) && (x <= -1 ==> x * d <= -d)
  {
    assert x * d - d == (x - 1) * d && x * d + d == (x + 1) * d;
  }

  /** The examples of appendix C.1 of RFC 7541. */
  lemma Examples()
    ensures Encode(0x00, 0x1F, 10) == [0x0A]
    ensures Encode(0x00, 0x1F, 1337) == [0x1F, 0x9A, 0x0A]
    ensures Encode(0x00, 0xFF, 42) == [0x2A]
  {
    assert Groups(10) == [10];
    assert Groups(1306) == [0x80 + 26] + Groups(10);
  }

  lemma EncodeLength(a: Byte, b: Byte, mask: Byte, v: nat)
    requires Disjoint(a, mask) && Disjoint(b, mask)
    ensures |Encode(a, mask, v)| == |Encode(b, mask, v)|
  {
  }

  lemma EncodeForm(first: Byte, groups: Bytes, rest: Bytes)
    ensures var s := [first] + groups + rest; s[0] == first && s[1..] == groups + rest
  {
  }

  lemma LowBits(prefix: Byte, mask: Byte, v: nat)
    requires Disjoint(prefix, mask) && v <= mask
    ensures Low(prefix + v, mask) == v
  {
  }

  lemma {:induction false} ReadGroupsBound(s: Bytes, left: nat)
    requires ReadGroups(s, left).Good?
    ensures ReadGroups(s, left).value < Power128(left)
    ensures 0 < ReadGroups(s, left).used <= |s|
  {
    if s[0] >= 0x80 {
      ReadGroupsBound(s[1..], left - 1);
    } else {
      assert Power128(left) == 0x80 * Power128(left - 1);
    }
  }

  /** The decoder's 64-bit arithmetic never wraps, and it consumes what it was given. */
  lemma DecodeBound(s: Bytes, mask: Byte)
    requires IsMask(mask) && Decode(s, mask).Good?
    ensures Decode(s, mask).value < 0x1_0000_0000_0000_0000
    ensures 0 < Decode(s, mask).used <= |s|
  {
    if Low(s[0], mask) == mask {
      ReadGroupsBound(s[1..], MAX_GROUPS);
      MaxPower();
    }
  }

  // ------------------------------------------------------------ the C loops

  /** h3zero_qpack_int_encode: writes the encoding if it fits before max, else returns NULL. */
  method IntEncode(buf: array<Byte>, bytes: Cursor, max: nat, mask: Byte, value: nat) returns (next: Cursor)
    requires max <= buf.Length
    requires bytes.At? && bytes.pos < max ==> Disjoint(buf[bytes.pos], mask)
    modifies buf
    ensures bytes.Null? || bytes.pos >= max ==> next == Null && buf[..] == old(buf[..])
    ensures bytes.At? && bytes.pos < max ==>
              var e := Encode(old(buf[bytes.pos]), mask, value);
              && buf[..bytes.pos] == old(buf[..bytes.pos])
              && next == (if bytes.pos + |e| <= max then At(bytes.pos + |e|) else Null)
              && (next.At? ==> buf[bytes.pos..next.pos] == e)
  {
    hide Groups;
    if bytes.Null? || bytes.pos >= max {
      return Null;
    }
    var start := bytes.pos;
    ghost var before := buf[..start];
    if value < mask {
      buf[start] := buf[start] + value;
      next := At(start + 1);
    } else {
      buf[start] := buf[start] + mask;
      ghost var first := buf[..start + 1];
      assert first == before + [buf[start]];
      hide Disjoint, IsMask;
      next := WriteGroups(buf, start + 1, max, value - mask);
      assert buf[..start] == buf[..start + 1][..start];
      if next.At? {
        assert buf[start..next.pos] == buf[..start + 1][start..] + buf[start + 1..next.pos];
      }
    }
  }

  /** The continuation octets, as far as there is room. */
  method WriteGroups(buf: array<Byte>, from: nat, max: nat, value: nat) returns (next: Cursor)
    requires from <= max <= buf.Length
    modifies buf
    ensures buf[..from] == old(buf[..from])
    ensures next == if from + |Groups(value)| <= max then At(from + |Groups(value)|) else Null
    ensures next.At? ==> buf[from..next.pos] == Groups(value)
  {
    var p, val := from, value;
    ghost var done: Bytes := [];
    while val >= 0x80 && p < max
      invariant from <= p <= max && buf[..from] == old(buf[..from]) && buf[from..p] == done
      invariant done + Groups(val) == Groups(value)
      decreases max - p
    {
      var octet: Byte := 0x80 + val % 0x80;
      buf[p] := octet;
      p := p + 1;
      assert done + ([octet] + Groups(val / 0x80)) == (done + [octet]) + Groups(val / 0x80);
      done := done + [octet];
      val := val / 0x80;
    }
    if p < max {
      buf[p] := val;
      p := p + 1;
      assert buf[from..p] == done + [val];
      next := At(p);
    } else {
      next := Null;
    }
  }

  /** What n groups already read contribute to the result of reading the rest. */
  ghost function Resumed(v: nat, scale: nat, n: nat, rest: IntResult): IntResult {
    match rest
    case Bad => Bad
    case Good(w, used) => Good(v + scale * w, n + used)
  }

  lemma ReadGroupsEnd(s: Bytes, left: nat, v: nat, scale: nat, n: nat)
    requires s == [] || left == 0
    ensures Resumed(v, scale, n, ReadGroups(s, left)) == Bad
  {
  }

  lemma NothingRead(r: IntResult)
    ensures Resumed(0, 1, 0, r) == r
  {
  }

  lemma ReadOneGroup(s: Bytes, left: nat, v: nat, scale: nat, n: nat)
    requires s != [] && left > 0
    ensures Resumed(v, scale, n, ReadGroups(s, left))
         == if s[0] < 0x80 then Good(v + s[0] % 0x80 * scale, n + 1)
            else Resumed(v + s[0] % 0x80 * scale, 0x80 * scale, n + 1, ReadGroups(s[1..], left - 1))
  {
    if s[0] >= 0x80 && ReadGroups(s[1..], left - 1).Good? {
      var w := ReadGroups(s[1..], left - 1).value;
      assert scale * (s[0] % 0x80 + 0x80 * w) == s[0] % 0x80 * scale + 0x80 * scale * w;
    }
  }

  /** h3zero_qpack_int_decode: on success the value and the cursor after it. */
  method IntDecode(bytes: Bytes, start: nat, mask: Byte) returns (next: Cursor, val: nat)
    requires start <= |bytes| && IsMask(mask)
    ensures next == match Decode(bytes[start..], mask) case Bad => Null case Good(_, used) => At(start + used)
    ensures next.At? ==> start < next.pos <= |bytes| && val == Decode(bytes[start..], mask).value
  {
    hide Low, ReadGroups, Power128, Resumed;
    if start >= |bytes| {
      return Null, 0;
    }
    var p := start;
    val := Low(bytes[p], mask);
    p := p + 1;
    if val == mask {
      var v: nat, shift: nat, scale: nat := 0, 0, 1;
      var complete := false;
      ghost var n: nat := 0;
      ghost var goal := ReadGroups(bytes[p..], MAX_GROUPS);
      assert bytes[start..][1..] == bytes[p..];
      assert goal == Resumed(0, 1, 0, goal) by { NothingRead(goal); }
      while p < |bytes| && shift < 62
        invariant start < p <= |bytes| && shift == 7 * n && !complete && n <= MAX_GROUPS
        invariant goal == Resumed(v, scale, n, ReadGroups(bytes[p..], MAX_GROUPS - n)) && p == start + 1 + n
        decreases |bytes| - p
      {
        ReadOneGroup(bytes[p..], MAX_GROUPS - n, v, scale, n);
        assert bytes[p..][1..] == bytes[p + 1..];
        v := v + bytes[p] % 0x80 * scale;
        p := p + 1;
        if bytes[p - 1] < 0x80 {
          complete := true;
          break;
        }
        shift := shift + 7;
        scale := 0x80 * scale;
        n := n + 1;
      }
      if shift >= 62 || !complete {
        ReadGroupsEnd(bytes[p..], MAX_GROUPS - n, v, scale, n);
        return Null, val;
      }
      val := v + mask;
    }
    next := At(p);
  }
}
