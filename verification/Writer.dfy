/** Writing at a cursor that may be NULL, as the C encoders do: a failed writer
    hands NULL on, and every later writer leaves the buffer alone. */
module Writer {
  import opened Bytes
  import Varint

  /** A writer that was given the octets `text` and the room up to max: it writes
      them all and moves the cursor behind them, or it returns NULL. */
  ghost predicate Wrote(before: Bytes, after: Bytes, bytes: Cursor, max: nat, text: Bytes, next: Cursor) {
    && |after| == |before|
    && match bytes
       case Null => next == Null
       case At(p) =>
         && p <= max <= |before|
         && before[..p] == after[..p]
         && (if p + |text| <= max then next == At(p + |text|) && after[p..p + |text|] == text else next == Null)
  }

  lemma WroteBoth(a: Bytes, b: Bytes, c: Bytes, p0: Cursor, p1: Cursor, p2: Cursor, max: nat, s: Bytes, t: Bytes)
    requires Wrote(a, b, p0, max, s, p1) && Wrote(b, c, p1, max, t, p2)
    requires p1.Null? ==> b == c
    ensures Wrote(a, c, p0, max, s + t, p2)
  {
    if p0.At? && p1.At? {
      assert c[..p0.pos] == b[..p1.pos][..p0.pos];
      if p2.At? {
        assert c[p0.pos..p1.pos] == c[..p1.pos][p0.pos..];
        assert c[p0.pos..p2.pos] == c[p0.pos..p1.pos] + c[p1.pos..p2.pos];
      }
    }
  }

  /** memcpy of val at the cursor, or NULL when it does not fit before max. */
  method PutOctets(buf: array<Byte>, bytes: Cursor, max: nat, val: Bytes) returns (next: Cursor)
    requires max <= buf.Length && (bytes.At? ==> bytes.pos <= max)
    modifies buf
    ensures Wrote(old(buf[..]), buf[..], bytes, max, val, next)
    ensures bytes.Null? ==> buf[..] == old(buf[..])
    ensures buf[max..] == old(buf[max..])
  {
    next := bytes;
    if bytes.At? && |val| > 0 {
      if bytes.pos + |val| > max {
        next := Null;
      } else {
        var p := bytes.pos;
        forall i | 0 <= i < |val| { buf[p + i] := val[i]; }
        next := At(p + |val|);
      }
    }
  }

  /** picoquic_frames_varint_encode, taken to be the minimal encoding. */
  method PutVarint(buf: array<Byte>, bytes: Cursor, max: nat, v: nat) returns (next: Cursor)
    requires max <= buf.Length && (bytes.At? ==> bytes.pos <= max) && v < Varint.LIMIT
    modifies buf
    ensures Wrote(old(buf[..]), buf[..], bytes, max, Varint.Encode(v), next)
    ensures bytes.Null? ==> buf[..] == old(buf[..])
    ensures buf[max..] == old(buf[max..])
  {
    next := PutOctets(buf, bytes, max, Varint.Encode(v));
  }

  /** memmove to a lower position in the same buffer, or to the same one. */
  method MoveDown(buf: array<Byte>, to: nat, from: nat, n: nat)
    requires to <= from && from + n <= buf.Length
    modifies buf
    ensures buf[..to] == old(buf[..to]) && buf[to..to + n] == old(buf[from..from + n])
  {
    forall i | 0 <= i < n { buf[to + i] := buf[from + i]; }
  }

  /** memcpy behind what is there. */
  method CopyIn(a: array<Byte>, at: nat, bs: Bytes)
    requires at + |bs| <= a.Length
    modifies a
    ensures a[..at + |bs|] == old(a[..at]) + bs
  {
    forall i | 0 <= i < |bs| { a[at + i] := bs[i]; }
  }
}
