/** The cursor-driven parser of header blocks, proved against Qpack.ParseBlock. */
module QpackParser {
  import opened Bytes
  import opened Qpack
  import PrefixInt
  import Huffman
  import HuffmanTable

  /** h3zero_parse_status */
  method ParseStatus(content: Bytes) returns (val: int)
    ensures val == StatusValue(content)
  {
    val := 0;
    var i := 0;
    while i < |content|
      invariant 0 <= i <= |content| && val >= 0 && val == StatusValue(content[..i])
    {
      assert content[..i + 1][..i] == content[..i];
      if IsDigit(content[i]) {
        val := val * 10;
        val := val + content[i] - 0x30;
      } else {
        NonDigitSticks(content, i + 1);
        return -1;
      }
      i := i + 1;
    }
    assert content[..i] == content;
  }

  lemma {:induction false} NonDigitSticks(content: Bytes, i: nat)
    requires i <= |content| && StatusValue(content[..i]) == -1
    ensures StatusValue(content) == -1
    decreases |content| - i
  {
    if i == |content| {
      assert content[..i] == content;
    } else {
      assert content[..i + 1][..i] == content[..i];
      NonDigitSticks(content, i + 1);
    }
  }

  /** What the C cursor says about a line parsed from position start. */
  ghost predicate Agrees(line: Line, start: nat, next: Cursor, parts: Parts) {
    match line
    case Next(p, used) => next == At(start + used) && parts == p
    case Failed => next == Null
    case BeyondTable => false
  }

  /** The string of a literal: decoded through a scratch buffer, or raw. */
  method DecodeLiteral(raw: Bytes, isHuffman: bool) returns (decoded: Bytes)
    ensures decoded == Literal(raw, isHuffman)
  {
    decoded := raw;
    if isHuffman {
      var deHuff := new Byte[256];
      var ret, decodedLength := Huffman.DecodeLoop(HuffmanTable.QPACK, raw, deHuff, deHuff.Length);
      if ret == 0 {
        decoded := deHuff[..decodedLength];
      }
    }
  }

  /** h3zero_parse_qpack_header_value */
  method ParseHeaderValue(bytes: Bytes, start: nat, header: Header, before: Parts) returns (next: Cursor, parts: Parts)
    requires start <= |bytes|
    ensures Agrees(ParseValue(bytes[start..], header, before), start, next, parts)
    ensures next.At? ==> next.pos <= |bytes|
  {
    hide Literal, SetField, PrefixInt.Decode;
    parts := before;
    if start >= |bytes| {
      EmptyValue(bytes[start..]);
      return Null, parts;
    }
    var isHuffman := bytes[start] >= 0x80;
    var vLength;
    next, vLength := PrefixInt.IntDecode(bytes, start, 0x7F);
    if next.At? {
      if next.pos + vLength > |bytes| {
        next := Null;
      } else {
        var raw := bytes[next.pos..next.pos + vLength];
        assert raw == bytes[start..][next.pos - start..next.pos - start + vLength];
        var decoded := DecodeLiteral(raw, isHuffman);
        match SetField(header, parts, decoded) {
          case None => next := Null;
          case Some(p) =>
            parts := p;
            next := At(next.pos + vLength);
        }
      }
    }
  }

  lemma EmptyValue(b: Bytes)
    requires b == []
    ensures PrefixInt.Decode(b, 0x7F) == PrefixInt.Bad
  {
  }

  /** One field line; `beyond` tells that a static index hit the slot after the table.
      After a failed index decode the C code still touches the parts, but the NULL
      cursor is already decided, so the model stops there. */
  method ParseFieldLine(bytes: Bytes, start: nat, before: Parts) returns (next: Cursor, parts: Parts, beyond: bool)
    requires start < |bytes|
    ensures var line := ParseLine(bytes[start..], before);
            if beyond then next == Null && line == BeyondTable else Agrees(line, start, next, parts)
    ensures next.At? ==> next.pos <= |bytes|
  {
    hide Literal, SetField, SetStatic, StaticHeader, HeaderByName, ParseValue, PrefixInt.Decode;
    parts, beyond := before, false;
    if bytes[start] / 0x40 == 3 {
      var sIndex;
      next, sIndex := PrefixInt.IntDecode(bytes, start, 0x3F);
      if next.At? {
        if sIndex > STATIC_ENTRIES {
          next := Null;
        } else if sIndex == STATIC_ENTRIES {
          return Null, parts, true;
        } else {
          match SetStatic(sIndex, parts) {
            case None => next := Null;
            case Some(p) => parts := p;
          }
        }
      }
    } else if bytes[start] / 0x10 == 5 || bytes[start] / 0x10 == 7 {
      var sIndex;
      next, sIndex := PrefixInt.IntDecode(bytes, start, 0x0F);
      if next.At? {
        if sIndex > STATIC_ENTRIES {
          next := Null;
        } else if sIndex == STATIC_ENTRIES {
          return Null, parts, true;
        } else {
          assert bytes[start..][next.pos - start..] == bytes[next.pos..];
          next, parts := ParseHeaderValue(bytes, next.pos, StaticHeader(sIndex), parts);
        }
      }
    } else if bytes[start] / 0x20 == 1 {
      var isHuffman := bytes[start] / 8 % 2 == 1;
      var nLength;
      next, nLength := PrefixInt.IntDecode(bytes, start, 0x07);
      if next.At? {
        if next.pos + nLength > |bytes| {
          next := Null;
        } else {
          var raw := bytes[next.pos..next.pos + nLength];
          assert raw == bytes[start..][next.pos - start..next.pos - start + nLength];
          assert bytes[start..][next.pos - start + nLength..] == bytes[next.pos + nLength..];
          var name := DecodeLiteral(raw, isHuffman);
          next, parts := ParseHeaderValue(bytes, next.pos + nLength, HeaderByName(name), parts);
        }
      }
    } else {
      next := Null;
    }
  }

  /** h3zero_parse_qpack_header_frame: on success the cursor is at the end of the block. */
  method ParseHeaderFrame(bytes: Bytes) returns (next: Cursor, parts: Parts, beyond: bool)
    ensures next.At? ==> next.pos == |bytes| && ParseBlock(bytes) == Parsed(parts)
    ensures next.Null? ==> ParseBlock(bytes) == if beyond then OffTable else Rejected
  {
    hide ParseLine, PrefixInt.Decode;
    parts, beyond := NO_PARTS, false;
    if bytes == [] || bytes[0] != 0 {
      return Null, parts, false;
    }
    var deltaBase;
    next, deltaBase := PrefixInt.IntDecode(bytes, 1, 0x7F);
    if next.Null? {
      return;
    }
    assert bytes[1..][next.pos - 1..] == bytes[next.pos..];
    while next.At? && next.pos < |bytes|
      invariant next.At? ==> !beyond && next.pos <= |bytes| && ParseBlock(bytes) == ParseLines(bytes[next.pos..], parts)
      invariant next.Null? ==> ParseBlock(bytes) == if beyond then OffTable else Rejected
      decreases next.At?, if next.At? then |bytes| - next.pos else 0
    {
      var here := next.pos;
      ParseLineNext(bytes[here..], parts);
      next, parts, beyond := ParseFieldLine(bytes, here, parts);
      assert next.At? ==> here < next.pos && bytes[here..][next.pos - here..] == bytes[next.pos..];
    }
  }

  lemma ParseLineNext(b: Bytes, parts: Parts)
    requires b != []
    ensures ParseLine(b, parts).Next? ==> 0 < ParseLine(b, parts).used <= |b|
  {
    if ParseLine(b, parts).Next? { ParseLineAdvances(b, parts); }
  }
}
