/** Octets, the two shapes of a C result (a pointer that may be NULL, a value
    that may be missing), and concatenation of lists of octet strings. */
module Bytes {
  type Byte = b: int | 0 <= b < 0x100
  type Bytes = seq<Byte>

  datatype Option<+T> = None | Some(value: T)

  /** The parsers walk a buffer with a pointer: NULL, or a position in the buffer. */
  datatype Cursor = Null | At(pos: nat)

  function Join(parts: seq<Bytes>): Bytes {
    if parts == [] then [] else parts[0] + Join(parts[1..])
  }

  lemma {:induction false} JoinAppend(a: seq<Bytes>, b: seq<Bytes>)
    ensures Join(a + b) == Join(a) + Join(b)
  {
    if a == [] {
      assert a + b == b;
    } else {
      assert (a + b)[1..] == a[1..] + b;
      calc {
        Join(a + b);
        a[0] + Join(a[1..] + b);
        { JoinAppend(a[1..], b); }
        a[0] + (Join(a[1..]) + Join(b));
        Join(a) + Join(b);
      }
    }
  }

  lemma JoinPrefix(chunks: seq<Bytes>, i: nat)
    requires i <= |chunks|
    ensures |Join(chunks[..i])| <= |Join(chunks)| && Join(chunks[..i]) == Join(chunks)[..|Join(chunks[..i])|]
  {
    assert chunks[..i] + chunks[i..] == chunks;
    JoinAppend(chunks[..i], chunks[i..]);
  }
}
