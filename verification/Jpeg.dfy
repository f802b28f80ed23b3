/** Pictures in a stream of octets: extract_jpegs cuts them out of a buffer in place,
    each time the buffer has grown. */
module Jpeg {
  import opened Bytes
  import opened Writer

  const SOI: Byte := 0xD8
  const EOI: Byte := 0xD9
  const KEEP: nat := 64 * 1024

  /** The marker 0xFF m stands at position i. */
  predicate MarkerAt(s: Bytes, i: nat, m: Byte) {
    i + 1 < |s| && s[i] == 0xFF && s[i + 1] == m
  }

  /** The first marker at or behind position i. */
  function Find(s: Bytes, i: nat, m: Byte): (r: Option<nat>)
    ensures r.Some? ==> i <= r.value && r.value + 1 < |s| && MarkerAt(s, r.value, m)
    ensures r.Some? ==> forall k | i <= k < r.value :: !MarkerAt(s, k, m)
    ensures r.None? ==> forall k | i <= k :: !MarkerAt(s, k, m)
    decreases |s| - i
  {
    if i + 1 >= |s| then None else if MarkerAt(s, i, m) then Some(i) else Find(s, i + 1, m)
  }

  function Last(s: Bytes): Bytes {
    if |s| > KEEP then s[|s| - KEEP..] else s
  }

  datatype Extracted = Extracted(frames: seq<Bytes>, residue: Bytes)

  /** Pictures run from the first SOI to the next EOI behind it. What stays is a picture
      that is not complete, or the last octets when there is no SOI. */
  function Extract(s: Bytes): Extracted
    decreases |s|
  {
    var start := Find(s, 0, SOI);
    if start.None? then Extracted([], Last(s))
    else
      var t := s[start.value..];
      var end := Find(t, 2, EOI);
      if end.None? then Extracted([], t)
      else
        var e := end.value;
        var rest := Extract(t[e + 2..]);
        Extracted([t[..e + 2]] + rest.frames, rest.residue)
  }

  lemma FindIs(s: Bytes, i: nat, m: Byte, k: nat)
    requires i <= k && MarkerAt(s, k, m) && forall j | i <= j < k :: !MarkerAt(s, j, m)
    ensures Find(s, i, m) == Some(k)
  {
  }

  lemma FindNothing(s: Bytes, i: nat, m: Byte)
    requires forall j | i <= j :: !MarkerAt(s, j, m)
    ensures Find(s, i, m) == None
  {
  }

  /** Octets behind a marker do not matter. */
  lemma FindStays(a: Bytes, b: Bytes, i: nat, m: Byte)
    requires Find(a, i, m).Some?
    ensures Find(a + b, i, m) == Find(a, i, m)
  {
    var k := Find(a, i, m).value;
    assert forall j | i <= j <= k :: MarkerAt(a + b, j, m) <==> MarkerAt(a, j, m);
    FindIs(a + b, i, m, k);
  }

  function Both(fs: seq<Bytes>, x: Extracted): Extracted {
    Extracted(fs + x.frames, x.residue)
  }

  lemma ExtractStep(s: Bytes)
    ensures Find(s, 0, SOI).None? ==> Extract(s) == Extracted([], Last(s))
    ensures Find(s, 0, SOI).Some? ==>
              var t := s[Find(s, 0, SOI).value..];
              && (Find(t, 2, EOI).None? ==> Extract(s) == Extracted([], t))
              && (Find(t, 2, EOI).Some? ==>
                    var e := Find(t, 2, EOI).value;
                    Extract(s) == Both([t[..e + 2]], Extract(t[e + 2..])))
  {
  }

  /** Markers in a suffix and in a longer string. */
  lemma MarkerShift(s: Bytes, k: nat, m: Byte)
    requires k <= |s|
    ensures forall j {:trigger MarkerAt(s[k..], j, m)} {:trigger MarkerAt(s, k + j, m)} | 0 <= j ::
              MarkerAt(s[k..], j, m) <==> MarkerAt(s, k + j, m)
  {
  }

  lemma FindShift(s: Bytes, k: nat, m: Byte)
    requires k <= |s| && forall j | 0 <= j < k :: !MarkerAt(s, j, m)
    ensures Find(s, 0, m) == if Find(s[k..], 0, m).Some? then Some(k + Find(s[k..], 0, m).value) else None
  {
    MarkerShift(s, k, m);
    var found := Find(s[k..], 0, m);
    hide MarkerAt;
    if found.Some? {
      assert MarkerAt(s, k + found.value, m);
      forall j | 0 <= j < k + found.value ensures !MarkerAt(s, j, m) {
        if j >= k { assert !MarkerAt(s[k..], j - k, m) && k + (j - k) == j; }
      }
      FindIs(s, 0, m, k + found.value);
    } else {
      forall j | 0 <= j ensures !MarkerAt(s, j, m) {
        if j >= k { assert !MarkerAt(s[k..], j - k, m) && k + (j - k) == j; }
      }
      FindNothing(s, 0, m);
    }
  }

  /** Octets in front of the first SOI do not matter, as long as enough octets stay. */
  lemma SkipGarbage(p: Bytes, r: Bytes)
    requires |p| > 0 ==> |r| >= KEEP
    requires forall j | 0 <= j < |p| :: !MarkerAt(p + r, j, SOI)
    ensures Extract(p + r) == Extract(r)
  {
    hide Extract, MarkerAt;
    var s := p + r;
    assert s[|p|..] == r;
    FindShift(s, |p|, SOI);
    ExtractStep(s);
    ExtractStep(r);
    var found := Find(r, 0, SOI);
    if found.Some? {
      assert s[|p| + found.value..] == r[found.value..];
    } else if |p| > 0 {
      assert Last(s) == Last(r);
    } else {
      assert s == r;
    }
  }

  /** Extraction step by step is extraction in one go: the same pictures, the same residue. */
  lemma {:induction false} ExtractAppend(a: Bytes, b: Bytes)
    ensures Extract(a + b) == Both(Extract(a).frames, Extract(Extract(a).residue + b))
    decreases |a|
  {
    ExtractStep(a);
    hide Extract, Find, MarkerAt;
    var start := Find(a, 0, SOI);
    if start.None? {
      GarbageFirst(a, b);
      BothNothing(Extract(Last(a) + b));
    } else {
      var t := a[start.value..];
      FindStays(a, b, 0, SOI);
      assert (a + b)[start.value..] == t + b;
      ExtractStep(a + b);
      var end := Find(t, 2, EOI);
      if end.Some? {
        var e := end.value;
        FindStays(t, b, 2, EOI);
        assert (t + b)[e + 2..] == t[e + 2..] + b && (t + b)[..e + 2] == t[..e + 2];
        ExtractAppend(t[e + 2..], b);
        BothTwice([t[..e + 2]], Extract(t[e + 2..]).frames, Extract(Extract(t[e + 2..]).residue + b));
      } else {
        StartsThere(a, start.value, b);
        BothNothing(Extract(t + b));
      }
    }
  }

  lemma BothNothing(x: Extracted)
    ensures Both([], x) == x
  {
  }

  lemma BothLast(fs: seq<Bytes>, residue: Bytes)
    ensures Both(fs, Extracted([], residue)) == Extracted(fs, residue)
  {
    assert fs + [] == fs;
  }

  lemma BothTwice(f: seq<Bytes>, g: seq<Bytes>, x: Extracted)
    ensures Both(f, Both(g, x)) == Both(f + g, x)
  {
    assert f + (g + x.frames) == f + g + x.frames;
  }

  lemma GarbageFirst(a: Bytes, b: Bytes)
    requires Find(a, 0, SOI).None?
    ensures Extract(a + b) == Extract(Last(a) + b)
  {
    var r := Last(a);
    var p := a[..|a| - |r|];
    assert a + b == p + (r + b);
    assert forall j | 0 <= j < |p| :: MarkerAt(a + b, j, SOI) <==> MarkerAt(a, j, SOI);
    hide MarkerAt, Extract;
    SkipGarbage(p, r + b);
  }

  lemma StartsThere(a: Bytes, k: nat, b: Bytes)
    requires Find(a, 0, SOI) == Some(k)
    ensures Extract(a + b) == Extract(a[k..] + b)
  {
    FindStays(a, b, 0, SOI);
    FindIs(a[k..] + b, 0, SOI, 0);
    assert (a + b)[k..] == a[k..] + b;
    assert (a[k..] + b)[0..] == a[k..] + b;
    hide Extract, Find, MarkerAt;
    ExtractStep(a + b);
    ExtractStep(a[k..] + b);
  }

  // ------------------------------------------------------ chunk after chunk

  /** A chunk is appended to what stayed, then the pictures are taken out. */
  function ExtractAll(residue: Bytes, chunks: seq<Bytes>): Extracted
    decreases |chunks|
  {
    if chunks == [] then Extracted([], residue)
    else
      var x := Extract(residue + chunks[0]);
      Both(x.frames, ExtractAll(x.residue, chunks[1..]))
  }

  /** However the stream is cut, the pictures are those of the whole stream, in order. */
  lemma {:induction false} ChunkingNeverMatters(residue: Bytes, chunks: seq<Bytes>)
    requires chunks != []
    ensures ExtractAll(residue, chunks) == Extract(residue + Join(chunks))
    decreases |chunks|
  {
    hide Extract;
    var x := Extract(residue + chunks[0]);
    var rest := Join(chunks[1..]);
    if chunks[1..] == [] {
      assert residue + Join(chunks) == residue + chunks[0];
      assert ExtractAll(x.residue, []) == Extracted([], x.residue);
      assert x.frames + [] == x.frames;
    } else {
      ExtractAppend(residue + chunks[0], rest);
      assert residue + Join(chunks) == residue + chunks[0] + rest;
      ChunkingNeverMatters(x.residue, chunks[1..]);
    }
  }

  // ------------------------------------------------- what the pictures are

  /** An SOI with an EOI somewhere behind it. */
  ghost predicate HasPicture(s: Bytes) {
    exists k, e | 0 <= k && k + 2 <= e :: MarkerAt(s, k, 0xD8) && MarkerAt(s, e, 0xD9)
  }

  /** From an SOI to the first EOI behind it. */
  predicate IsPicture(f: Bytes) {
    && |f| >= 4 && MarkerAt(f, 0, 0xD8) && MarkerAt(f, |f| - 2, 0xD9)
    && forall e | 2 <= e < |f| - 2 :: !MarkerAt(f, e, 0xD9)
  }

  /** f is the leftmost picture of s and stands at k: no SOI in front, no EOI inside. */
  predicate Leftmost(s: Bytes, k: nat, f: Bytes) {
    k + |f| <= |s| && s[k..k + |f|] == f && IsPicture(f) && forall j | 0 <= j < k :: !MarkerAt(s, j, 0xD8)
  }

  lemma PictureFound(s: Bytes, k: nat, e: nat)
    requires Find(s, 0, SOI) == Some(k) && Find(s[k..], 2, EOI) == Some(e)
    ensures HasPicture(s) && e + 2 <= |s[k..]| && Leftmost(s, k, s[k..][..e + 2])
  {
    var t := s[k..];
    MarkerShift(s, k, EOI);
    assert MarkerAt(s, k, SOI) && MarkerAt(s, k + e, EOI);
    var f := t[..e + 2];
    assert s[k..k + |f|] == f;
    assert forall j | 0 <= j <= e :: MarkerAt(f, j, EOI) <==> MarkerAt(t, j, EOI);
  }

  lemma NoPictureFound(s: Bytes)
    requires Find(s, 0, SOI).Some? ==> Find(s[Find(s, 0, SOI).value..], 2, EOI).None?
    ensures !HasPicture(s)
  {
    var start := Find(s, 0, SOI);
    if start.Some? {
      var k := start.value;
      MarkerShift(s, k, EOI);
      hide MarkerAt;
      forall j, e | 0 <= j && j + 2 <= e ensures !(MarkerAt(s, j, SOI) && MarkerAt(s, e, EOI)) {
        if MarkerAt(s, j, SOI) { assert k + (e - k) == e && !MarkerAt(s[k..], e - k, EOI); }
      }
    }
  }

  ghost predicate TakesFirst(s: Bytes, k: nat, f: Bytes) {
    Leftmost(s, k, f) && Extract(s) == Both([f], Extract(s[k + |f|..]))
  }

  /** Without a complete picture nothing is taken out; otherwise the leftmost picture is,
      and then extraction goes on behind it. */
  lemma FirstPicture(s: Bytes)
    ensures Extract(s).frames == [] <==> !HasPicture(s)
    ensures HasPicture(s) ==> exists k: nat, f :: TakesFirst(s, k, f)
  {
    ExtractStep(s);
    var start := Find(s, 0, SOI);
    hide Extract, Find, MarkerAt, HasPicture, IsPicture;
    if start.Some? && Find(s[start.value..], 2, EOI).Some? {
      FirstTaken(s, start.value, Find(s[start.value..], 2, EOI).value);
    } else {
      NoPictureFound(s);
    }
  }

  lemma FirstTaken(s: Bytes, k: nat, e: nat)
    requires Find(s, 0, SOI) == Some(k) && Find(s[k..], 2, EOI) == Some(e)
    ensures HasPicture(s) && e + 2 <= |s[k..]| && TakesFirst(s, k, s[k..][..e + 2])
  {
    PictureFound(s, k, e);
    ExtractStep(s);
    hide Extract, Find, MarkerAt, HasPicture, IsPicture, Both;
    var t := s[k..];
    var f := t[..e + 2];
    assert |f| == e + 2 && t[e + 2..] == s[k + |f|..];
  }

  /** Every picture is one, and no complete picture stays behind. */
  lemma {:induction false} AllPictures(s: Bytes)
    ensures forall f | f in Extract(s).frames :: IsPicture(f)
    ensures !HasPicture(Extract(s).residue)
    decreases |s|
  {
    ExtractStep(s);
    var start := Find(s, 0, SOI);
    hide Extract, Find, MarkerAt, IsPicture, HasPicture, Leftmost;
    if start.None? {
      LastHasNone(s);
    } else {
      var t := s[start.value..];
      var end := Find(t, 2, EOI);
      if end.Some? {
        PictureFound(s, start.value, end.value);
        LeftmostIsPicture(s, start.value, t[..end.value + 2]);
        AllPictures(t[end.value + 2..]);
      } else {
        StillNone(s, start.value);
      }
    }
  }

  /** What stays when there is no picture: everything from the first SOI on, or the last 65536 octets. */
  lemma ResidueIs(s: Bytes)
    requires !HasPicture(s)
    ensures forall k: nat | MarkerAt(s, k, 0xD8) && forall j | 0 <= j < k :: !MarkerAt(s, j, 0xD8) ::
              Extract(s) == Extracted([], s[k..])
    ensures (forall k: nat :: !MarkerAt(s, k, 0xD8)) ==>
              Extract(s) == Extracted([], if |s| > 65536 then s[|s| - 65536..] else s)
  {
    ExtractStep(s);
    var start := Find(s, 0, SOI);
    if start.Some? && Find(s[start.value..], 2, EOI).Some? {
      PictureFound(s, start.value, Find(s[start.value..], 2, EOI).value);
    }
    forall k: nat | MarkerAt(s, k, 0xD8) && forall j | 0 <= j < k :: !MarkerAt(s, j, 0xD8)
      ensures start == Some(k)
    {
      FindIs(s, 0, SOI, k);
    }
    hide Extract, HasPicture;
    if start.Some? {
      assert MarkerAt(s, start.value, 0xD8);
    }
  }

  /** An example: one octet, a picture of five octets, and one octet behind it. */
  lemma Example()
    ensures Extract([0x00, 0xFF, 0xD8, 0x01, 0xFF, 0xD9, 0x02])
         == Extracted([[0xFF, 0xD8, 0x01, 0xFF, 0xD9]], [0x02])
  {
    var s: Bytes := [0x00, 0xFF, 0xD8, 0x01, 0xFF, 0xD9, 0x02];
    var t := s[1..];
    FindIs(s, 0, 0xD8, 1);
    assert t == [0xFF, 0xD8, 0x01, 0xFF, 0xD9, 0x02];
    FindIs(t, 2, 0xD9, 3);
    var last: Bytes := [0x02];
    assert t[5..] == last && t[..5] == [0xFF, 0xD8, 0x01, 0xFF, 0xD9];
    assert Find(last, 0, 0xD8) == None;
    hide Find, MarkerAt;
    ExtractStep(s);
    ExtractStep(last);
    hide Extract;
    assert [t[..5]] + [] == [t[..5]];
  }

  lemma LeftmostIsPicture(s: Bytes, k: nat, f: Bytes)
    requires Leftmost(s, k, f)
    ensures IsPicture(f)
  {
  }

  lemma LastHasNone(s: Bytes)
    requires Find(s, 0, SOI).None?
    ensures !HasPicture(Last(s))
  {
    MarkerShift(s, |s| - |Last(s)|, SOI);
  }

  lemma StillNone(s: Bytes, k: nat)
    requires Find(s, 0, SOI) == Some(k) && Find(s[k..], 2, EOI).None?
    ensures !HasPicture(s[k..])
  {
    NoPictureFound(s);
    MarkerShift(s, k, SOI);
    MarkerShift(s, k, EOI);
    hide MarkerAt;
  }

  // ---------------------------------------------------------------- in place

  /** The loops that look for a marker: its position, or the last octet. */
  method FindMarker(b: array<Byte>, n: nat, from: nat, m: Byte) returns (s: nat)
    requires n <= b.Length
    ensures from <= s
    ensures s + 1 < n ==> Find(b[..n], from, m) == Some(s)
    ensures s + 1 >= n ==> Find(b[..n], from, m) == None
  {
    s := from;
    while s + 1 < n && !(b[s] == 0xFF && b[s + 1] == m)
      invariant from <= s && forall j | from <= j < s :: !MarkerAt(b[..n], j, m)
    {
      assert !MarkerAt(b[..n], s, m);
      s := s + 1;
    }
    if s + 1 < n { FindIs(b[..n], from, m, s); } else { FindNothing(b[..n], from, m); }
  }

  /** memmove of the octets from `from` on to the front. */
  method ToFront(buf: array<Byte>, from: nat, n: nat)
    requires from <= n <= buf.Length
    modifies buf
    ensures buf[..n - from] == old(buf[..n])[from..]
  {
    MoveDown(buf, 0, from, n - from);
  }

  /** Move the first SOI to the front, or keep the last octets when there is none. */
  method ToPicture(buf: array<Byte>, lenIn: nat) returns (some: bool, len: nat)
    requires lenIn <= buf.Length
    modifies buf
    ensures len <= lenIn && some == Find(old(buf[..lenIn]), 0, SOI).Some?
    ensures some ==> len >= 2 && buf[..len] == old(buf[..lenIn])[Find(old(buf[..lenIn]), 0, SOI).value..]
    ensures !some ==> buf[..len] == Last(old(buf[..lenIn]))
  {
    hide Find, MarkerAt;
    len := lenIn;
    var s := FindMarker(buf, len, 0, SOI);
    some := s + 1 < len;
    if !some {
      if len > KEEP {
        ToFront(buf, len - KEEP, len);
        len := KEEP;
      }
    } else if s > 0 {
      ToFront(buf, s, len);
      len := len - s;
    }
  }

  /** One turn of the loop: drop what stands in front of a picture, take the picture. */
  method NextPicture(buf: array<Byte>, lenIn: nat) returns (found: bool, len: nat, frame: Bytes)
    requires lenIn <= buf.Length
    modifies buf
    ensures len <= lenIn && (found ==> len < lenIn)
    ensures Extract(old(buf[..lenIn]))
         == if found then Both([frame], Extract(buf[..len])) else Extracted([], buf[..len])
  {
    hide Extract, Find, MarkerAt, Both, Last;
    ExtractStep(buf[..lenIn]);
    found, frame := false, [];
    var some;
    some, len := ToPicture(buf, lenIn);
    if !some {
      return;
    }
    ghost var t := buf[..len];
    var e := FindMarker(buf, len, 2, EOI);
    if e + 1 >= len {
      return;
    }
    found, frame := true, buf[..e + 2];
    assert frame == t[..e + 2];
    ToFront(buf, e + 2, len);
    len := len - (e + 2);
  }

  /** extract_jpegs: the pictures leave through the callback, in order; the residue moves
      to the front of the buffer. */
  method ExtractJpegs(buf: array<Byte>, lenIn: nat) returns (len: nat, frames: seq<Bytes>)
    requires lenIn <= buf.Length
    modifies buf
    ensures len <= lenIn
    ensures Extract(old(buf[..lenIn])) == Extracted(frames, buf[..len])
  {
    hide Extract, Both;
    len, frames := lenIn, [];
    ghost var goal := Extract(buf[..lenIn]);
    BothNothing(goal);
    while true
      invariant len <= lenIn && goal == Both(frames, Extract(buf[..len]))
      decreases len
    {
      var found, frame;
      found, len, frame := NextPicture(buf, len);
      if !found {
        BothLast(frames, buf[..len]);
        return;
      }
      BothTwice(frames, [frame], Extract(buf[..len]));
      frames := frames + [frame];
    }
  }
}
