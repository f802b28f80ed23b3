/** The two tables of the QPACK Huffman decoder, and the code of Appendix B of
    RFC 7541 that they decode. The facts about the literals come row by row, eight
    indices or octets at a time. */
module HuffmanTable {
  import opened Bytes
  import Huffman

  const SIZE := Huffman.SIZE

  function PickOctet(k: int, a0: Byte, a1: Byte, a2: Byte, a3: Byte, a4: Byte, a5: Byte, a6: Byte, a7: Byte,
      a8: Byte, a9: Byte, a10: Byte, a11: Byte, a12: Byte, a13: Byte, a14: Byte, a15: Byte): Byte {
    if k < 4 then if k < 2 then (if k < 1 then a0 else a1) else (if k < 3 then a2 else a3)
    else if k < 8 then if k < 6 then (if k < 5 then a4 else a5) else (if k < 7 then a6 else a7)
    else if k < 12 then if k < 10 then (if k < 9 then a8 else a9) else (if k < 11 then a10 else a11)
    else if k < 14 then (if k < 13 then a12 else a13) else (if k < 15 then a14 else a15)
  }

  function PickMask(k: int, a0: bv8, a1: bv8, a2: bv8, a3: bv8, a4: bv8, a5: bv8, a6: bv8, a7: bv8,
      a8: bv8, a9: bv8, a10: bv8, a11: bv8, a12: bv8, a13: bv8, a14: bv8, a15: bv8): bv8 {
    if k < 4 then if k < 2 then (if k < 1 then a0 else a1) else (if k < 3 then a2 else a3)
    else if k < 8 then if k < 6 then (if k < 5 then a4 else a5) else (if k < 7 then a6 else a7)
    else if k < 12 then if k < 10 then (if k < 9 then a8 else a9) else (if k < 11 then a10 else a11)
    else if k < 14 then (if k < 13 then a12 else a13) else (if k < 15 then a14 else a15)
  }

  /** h3zero_qpack_huffman_val: the jump of an internal index, the octet of a terminal one. */
  function Value(i: nat): Byte
    requires i < 512
  {
    if i < 256 then
      if i < 128 then
        if i < 64 then
          if i < 32 then
            if i < 16 then
              PickOctet(i, 44, 16, 8, 4, 2, 48, 49, 2, 50, 97, 4, 2, 99, 101, 2, 105)
            else
              PickOctet(i - 16, 111, 12, 4, 2, 115, 116, 4, 2, 32, 37, 2, 45, 46, 8, 4, 2)
          else
            if i < 48 then
              PickOctet(i - 32, 47, 51, 2, 52, 53, 4, 2, 54, 55, 2, 56, 57, 36, 16, 8, 4)
            else
              PickOctet(i - 48, 2, 61, 65, 2, 95, 98, 4, 2, 100, 102, 2, 103, 104, 8, 4, 2)
        else
          if i < 96 then
            if i < 80 then
              PickOctet(i - 64, 108, 109, 2, 110, 112, 4, 2, 114, 117, 4, 2, 58, 66, 2, 67, 68)
            else
              PickOctet(i - 80, 32, 16, 8, 4, 2, 69, 70, 2, 71, 72, 4, 2, 73, 74, 2, 75)
          else
            if i < 112 then
              PickOctet(i - 96, 76, 8, 4, 2, 77, 78, 2, 79, 80, 4, 2, 81, 82, 2, 83, 84)
            else
              PickOctet(i - 112, 16, 8, 4, 2, 85, 86, 2, 87, 89, 4, 2, 106, 107, 2, 113, 118)
      else
        if i < 192 then
          if i < 160 then
            if i < 144 then
              PickOctet(i - 128, 8, 4, 2, 119, 120, 2, 121, 122, 8, 4, 2, 38, 42, 2, 44, 59)
            else
              PickOctet(i - 144, 4, 2, 88, 90, 8, 4, 2, 33, 34, 2, 40, 41, 6, 2, 63, 2)
          else
            if i < 176 then
              PickOctet(i - 160, 39, 43, 6, 2, 124, 2, 35, 62, 8, 4, 2, 0, 36, 2, 64, 91)
            else
              PickOctet(i - 176, 4, 2, 93, 126, 4, 2, 94, 125, 4, 2, 60, 96, 2, 123, 30, 10)
        else
          if i < 224 then
            if i < 208 then
              PickOctet(i - 192, 4, 2, 92, 195, 2, 208, 2, 128, 130, 8, 4, 2, 131, 162, 2, 184)
            else
              PickOctet(i - 208, 194, 4, 2, 224, 226, 4, 2, 153, 161, 2, 167, 172, 46, 16, 8, 4)
          else
            if i < 240 then
              PickOctet(i - 224, 2, 176, 177, 2, 179, 209, 4, 2, 216, 217, 2, 227, 229, 14, 6, 2)
            else
              PickOctet(i - 240, 230, 2, 129, 132, 4, 2, 133, 134, 2, 136, 146, 8, 4, 2, 154, 156)
    else
      if i < 384 then
        if i < 320 then
          if i < 288 then
            if i < 272 then
              PickOctet(i - 256, 2, 160, 163, 4, 2, 164, 169, 2, 170, 173, 40, 16, 8, 4, 2, 178)
            else
              PickOctet(i - 272, 181, 2, 185, 186, 4, 2, 187, 189, 2, 190, 196, 8, 4, 2, 198, 228)
          else
            if i < 304 then
              PickOctet(i - 288, 2, 232, 233, 8, 4, 2, 1, 135, 2, 137, 138, 4, 2, 139, 140, 2)
            else
              PickOctet(i - 304, 141, 143, 32, 16, 8, 4, 2, 147, 149, 2, 150, 151, 4, 2, 152, 155)
        else
          if i < 352 then
            if i < 336 then
              PickOctet(i - 320, 2, 157, 158, 8, 4, 2, 165, 166, 2, 168, 174, 4, 2, 175, 180, 2)
            else
              PickOctet(i - 336, 182, 183, 22, 8, 4, 2, 188, 191, 2, 197, 231, 6, 2, 239, 2, 9)
          else
            if i < 368 then
              PickOctet(i - 352, 142, 4, 2, 144, 145, 2, 148, 159, 20, 8, 4, 2, 171, 206, 2, 215)
            else
              PickOctet(i - 368, 225, 4, 2, 236, 237, 4, 2, 199, 207, 2, 234, 235, 34, 16, 8, 4)
      else
        if i < 448 then
          if i < 416 then
            if i < 400 then
              PickOctet(i - 384, 2, 192, 193, 2, 200, 201, 4, 2, 202, 205, 2, 210, 213, 8, 4, 2)
            else
              PickOctet(i - 400, 218, 219, 2, 238, 240, 4, 2, 242, 243, 2, 255, 2, 203, 204, 32, 16)
          else
            if i < 432 then
              PickOctet(i - 416, 8, 4, 2, 211, 212, 2, 214, 221, 4, 2, 222, 223, 2, 241, 244, 8)
            else
              PickOctet(i - 432, 4, 2, 245, 246, 2, 247, 248, 4, 2, 250, 251, 2, 252, 253, 30, 14)
        else
          if i < 480 then
            if i < 464 then
              PickOctet(i - 448, 6, 2, 254, 2, 2, 3, 4, 2, 4, 5, 2, 6, 7, 8, 4, 2)
            else
              PickOctet(i - 464, 8, 11, 2, 12, 14, 4, 2, 15, 16, 2, 17, 18, 16, 8, 4, 2)
          else
            if i < 496 then
              PickOctet(i - 480, 19, 20, 2, 21, 23, 4, 2, 24, 25, 2, 26, 27, 8, 4, 2, 28)
            else
              PickOctet(i - 496, 29, 2, 30, 31, 4, 2, 127, 220, 2, 249, 4, 2, 10, 13, 2, 22)
  }

  /** h3zero_qpack_huffman_bit: one bit per index, set when the index is internal. */
  function Mask(i: nat): bv8
    requires i < 64
  {
    if i < 32 then
      if i < 16 then
        PickMask(i, 249, 50, 115, 39, 38, 79, 147, 39, 38, 100, 249, 50, 114, 100, 242, 100)
      else
        PickMask(i - 16, 228, 228, 206, 77, 52, 228, 204, 203, 202, 114, 102, 79, 147, 39, 76, 156)
    else
      if i < 48 then
        PickMask(i - 32, 153, 62, 76, 156, 156, 153, 62, 76, 156, 153, 60, 154, 100, 242, 102, 79)
      else
        PickMask(i - 48, 147, 39, 38, 83, 228, 201, 201, 147, 211, 39, 38, 79, 38, 78, 76, 178)
  }

  predicate TestBit(b: bv8, k: nat) {
    match k
    case 0 => b & 0x80 != 0
    case 1 => b & 0x40 != 0
    case 2 => b & 0x20 != 0
    case 3 => b & 0x10 != 0
    case 4 => b & 0x08 != 0
    case 5 => b & 0x04 != 0
    case 6 => b & 0x02 != 0
    case _ => b & 0x01 != 0
  }

  predicate Internal(i: nat)
    requires i < SIZE
  {
    TestBit(Mask(i / 8), i % 8)
  }

  const QPACK: Huffman.Table :=
    Huffman.Table((i: nat) => i < SIZE && Internal(i), (i: nat) => if i < SIZE then Value(i) else 0)

  // ------------------------------------------- Appendix B of RFC 7541

  function PickNat(k: int, a0: nat, a1: nat, a2: nat, a3: nat, a4: nat, a5: nat, a6: nat, a7: nat,
      a8: nat, a9: nat, a10: nat, a11: nat, a12: nat, a13: nat, a14: nat, a15: nat): nat {
    if k < 4 then if k < 2 then (if k < 1 then a0 else a1) else (if k < 3 then a2 else a3)
    else if k < 8 then if k < 6 then (if k < 5 then a4 else a5) else (if k < 7 then a6 else a7)
    else if k < 12 then if k < 10 then (if k < 9 then a8 else a9) else (if k < 11 then a10 else a11)
    else if k < 14 then (if k < 13 then a12 else a13) else (if k < 15 then a14 else a15)
  }

  /** The code of an octet in Appendix B, read as a binary number behind a leading one: with
      code c of l bits, 2 to the power l plus c. */
  function Number(i: Byte): nat {
    if i < 128 then
      if i < 64 then
        if i < 32 then
          if i < 16 then
            PickNat(i, 0x3FF8, 0xFFFFD8, 0x1FFFFFE2, 0x1FFFFFE3, 0x1FFFFFE4, 0x1FFFFFE5, 0x1FFFFFE6, 0x1FFFFFE7,
              0x1FFFFFE8, 0x1FFFFEA, 0x7FFFFFFC, 0x1FFFFFE9, 0x1FFFFFEA, 0x7FFFFFFD, 0x1FFFFFEB, 0x1FFFFFEC)
          else
            PickNat(i - 16,
              0x1FFFFFED, 0x1FFFFFEE, 0x1FFFFFEF, 0x1FFFFFF0, 0x1FFFFFF1, 0x1FFFFFF2, 0x7FFFFFFE, 0x1FFFFFF3,
              0x1FFFFFF4, 0x1FFFFFF5, 0x1FFFFFF6, 0x1FFFFFF7, 0x1FFFFFF8, 0x1FFFFFF9, 0x1FFFFFFA, 0x1FFFFFFB)
        else
          if i < 48 then
            PickNat(i - 32, 0x54, 0x7F8, 0x7F9, 0x1FFA, 0x3FF9, 0x55, 0x1F8, 0xFFA,
              0x7FA, 0x7FB, 0x1F9, 0xFFB, 0x1FA, 0x56, 0x57, 0x58)
          else
            PickNat(i - 48, 0x20, 0x21, 0x22, 0x59, 0x5A, 0x5B, 0x5C, 0x5D,
              0x5E, 0x5F, 0xDC, 0x1FB, 0xFFFC, 0x60, 0x1FFB, 0x7FC)
      else
        if i < 96 then
          if i < 80 then
            PickNat(i - 64, 0x3FFA, 0x61, 0xDD, 0xDE, 0xDF, 0xE0, 0xE1, 0xE2,
              0xE3, 0xE4, 0xE5, 0xE6, 0xE7, 0xE8, 0xE9, 0xEA)
          else
            PickNat(i - 80, 0xEB, 0xEC, 0xED, 0xEE, 0xEF, 0xF0, 0xF1, 0xF2,
              0x1FC, 0xF3, 0x1FD, 0x3FFB, 0xFFFF0, 0x3FFC, 0x7FFC, 0x62)
        else
          if i < 112 then
            PickNat(i - 96, 0xFFFD, 0x23, 0x63, 0x24, 0x64, 0x25, 0x65, 0x66,
              0x67, 0x26, 0xF4, 0xF5, 0x68, 0x69, 0x6A, 0x27)
          else
            PickNat(i - 112, 0x6B, 0xF6, 0x6C, 0x28, 0x29, 0x6D, 0xF7, 0xF8,
              0xF9, 0xFA, 0xFB, 0xFFFE, 0xFFC, 0x7FFD, 0x3FFD, 0x1FFFFFFC)
    else
      if i < 192 then
        if i < 160 then
          if i < 144 then
            PickNat(i - 128, 0x1FFFE6, 0x7FFFD2, 0x1FFFE7, 0x1FFFE8, 0x7FFFD3, 0x7FFFD4, 0x7FFFD5, 0xFFFFD9,
              0x7FFFD6, 0xFFFFDA, 0xFFFFDB, 0xFFFFDC, 0xFFFFDD, 0xFFFFDE, 0x1FFFFEB, 0xFFFFDF)
          else
            PickNat(i - 144, 0x1FFFFEC, 0x1FFFFED, 0x7FFFD7, 0xFFFFE0, 0x1FFFFEE, 0xFFFFE1, 0xFFFFE2, 0xFFFFE3,
              0xFFFFE4, 0x3FFFDC, 0x7FFFD8, 0xFFFFE5, 0x7FFFD9, 0xFFFFE6, 0xFFFFE7, 0x1FFFFEF)
        else
          if i < 176 then
            PickNat(i - 160, 0x7FFFDA, 0x3FFFDD, 0x1FFFE9, 0x7FFFDB, 0x7FFFDC, 0xFFFFE8, 0xFFFFE9, 0x3FFFDE,
              0xFFFFEA, 0x7FFFDD, 0x7FFFDE, 0x1FFFFF0, 0x3FFFDF, 0x7FFFDF, 0xFFFFEB, 0xFFFFEC)
          else
            PickNat(i - 176, 0x3FFFE0, 0x3FFFE1, 0x7FFFE0, 0x3FFFE2, 0xFFFFED, 0x7FFFE1, 0xFFFFEE, 0xFFFFEF,
              0x1FFFEA, 0x7FFFE2, 0x7FFFE3, 0x7FFFE4, 0xFFFFF0, 0x7FFFE5, 0x7FFFE6, 0xFFFFF1)
      else
        if i < 224 then
          if i < 208 then
            PickNat(i - 192, 0x7FFFFE0, 0x7FFFFE1, 0x1FFFEB, 0xFFFF1, 0x7FFFE7, 0xFFFFF2, 0x7FFFE8, 0x3FFFFEC,
              0x7FFFFE2, 0x7FFFFE3, 0x7FFFFE4, 0xFFFFFDE, 0xFFFFFDF, 0x7FFFFE5, 0x1FFFFF1, 0x3FFFFED)
          else
            PickNat(i - 208, 0xFFFF2, 0x3FFFE3, 0x7FFFFE6, 0xFFFFFE0, 0xFFFFFE1, 0x7FFFFE7, 0xFFFFFE2, 0x1FFFFF2,
              0x3FFFE4, 0x3FFFE5, 0x7FFFFE8, 0x7FFFFE9, 0x1FFFFFFD, 0xFFFFFE3, 0xFFFFFE4, 0xFFFFFE5)
        else
          if i < 240 then
            PickNat(i - 224, 0x1FFFEC, 0x1FFFFF3, 0x1FFFED, 0x3FFFE6, 0x7FFFE9, 0x3FFFE7, 0x3FFFE8, 0xFFFFF3,
              0x7FFFEA, 0x7FFFEB, 0x3FFFFEE, 0x3FFFFEF, 0x1FFFFF4, 0x1FFFFF5, 0x7FFFFEA, 0xFFFFF4)
          else
            PickNat(i - 240, 0x7FFFFEB, 0xFFFFFE6, 0x7FFFFEC, 0x7FFFFED, 0xFFFFFE7, 0xFFFFFE8, 0xFFFFFE9, 0xFFFFFEA,
              0xFFFFFEB, 0x1FFFFFFE, 0xFFFFFEC, 0xFFFFFED, 0xFFFFFEE, 0xFFFFFEF, 0xFFFFFF0, 0x7FFFFEE)
  }

  function Code(c: Byte): Huffman.Bits {
    Huffman.BitsBehindOne(Number(c))
  }

  function Codes(s: Bytes): seq<Huffman.Bits> {
    if s == [] then [] else [Code(s[0])] + Codes(s[1..])
  }

  /** A string literal in Huffman form: the codes of its octets, padded with ones. */
  ghost function Encode(s: Bytes): Bytes {
    Huffman.Padded(Huffman.Concat(Codes(s)))
  }

  // ------------------------------------------------ what the tables contain

  predicate Child(p: nat, n: nat) {
    p < n < SIZE && Internal(p) && (n == p + 1 || n == p + Value(p))
  }

  /** Octet c has this code, and its terminal index i hangs on index p. */
  predicate Spot(c: Byte, number: nat, p: nat, i: nat) {
    Number(c) == number && Child(p, i) && !Internal(i) && Value(i) == c
  }

  /** The bits of this number behind its leading one lead from the root to index n. */
  predicate At(number: nat, n: nat) {
    Huffman.Follow(QPACK, Huffman.BitsBehindOne(number), 0) == Some(n)
  }

  /** The code of Appendix B leads to the octet in the tables. */
  predicate Decodes(c: Byte) {
    Huffman.Leads(QPACK, Code(c), c)
  }

  lemma RootIsAt()
    ensures At(1, 0)
  {
  }

  lemma Down(number: nat, p: nat, n: nat)
    requires number > 0 && At(number, p) && Child(p, n)
    ensures At(2 * number + if n == p + 1 then 0 else 1, n)
  {
    hide Internal, Value;
    var bit := n != p + 1;
    var next := 2 * number + if bit then 1 else 0;
    assert next / 2 == number && (next % 2 == 1) == bit;
    assert Huffman.BitsBehindOne(next) == Huffman.BitsBehindOne(number) + [bit];
    Huffman.FollowOn(QPACK, Huffman.BitsBehindOne(number), [bit], 0);
    assert [bit][1..] == [];
  }

  lemma Leaf(c: Byte, number: nat, p: nat, i: nat)
    requires number > 0 && At(number, p)
    requires Spot(c, 2 * number + if i == p + 1 then 0 else 1, p, i)
    ensures Decodes(c)
  {
    hide Internal, Value, Number;
    Down(number, p, i);
  }

  lemma Row0()
    ensures At(1, 0) && At(2, 1) && At(4, 2) && At(8, 3)
    ensures At(0x10, 4) && At(0x11, 7) && At(9, 10) && At(0x12, 11)
  {
    hide At;
    RootIsAt();
    Down(1, 0, 1); Down(2, 1, 2); Down(4, 2, 3); Down(8, 3, 4); Down(8, 3, 7); Down(4, 2, 10); Down(9, 10, 11);
  }

  lemma Row1()
    ensures At(0x13, 14) && At(5, 17) && At(0xA, 18) && At(0x14, 19)
    ensures At(0x15, 22) && At(0x2A, 23) && At(0x2B, 26) && At(0xB, 29)
  {
    hide At;
    Row0();
    Down(9, 10, 14); Down(2, 1, 17); Down(5, 17, 18); Down(0xA, 18, 19); Down(0xA, 18, 22); Down(0x15, 22, 23);
    Down(0x15, 22, 26); Down(5, 17, 29);
  }

  lemma Row2()
    ensures At(0x16, 30) && At(0x2C, 31) && At(0x2D, 34) && At(0x17, 37)
    ensures At(0x2E, 38) && At(0x2F, 41) && At(3, 44) && At(6, 45)
  {
    hide At;
    Row0(); Row1();
    Down(0xB, 29, 30); Down(0x16, 30, 31); Down(0x16, 30, 34); Down(0xB, 29, 37); Down(0x17, 37, 38);
    Down(0x17, 37, 41); Down(1, 0, 44); Down(3, 44, 45);
  }

  lemma Row3()
    ensures At(0xC, 46) && At(0x18, 47) && At(0x30, 48) && At(0x31, 51)
    ensures At(0x19, 54) && At(0x32, 55) && At(0x33, 58) && At(0xD, 61)
  {
    hide At;
    Row2();
    Down(6, 45, 46); Down(0xC, 46, 47); Down(0x18, 47, 48); Down(0x18, 47, 51); Down(0xC, 46, 54);
    Down(0x19, 54, 55); Down(0x19, 54, 58); Down(6, 45, 61);
  }

  lemma Row4()
    ensures At(0x1A, 62) && At(0x34, 63) && At(0x35, 66) && At(0x1B, 69)
    ensures At(0x36, 70) && At(0x37, 73) && At(0x6E, 74) && At(0x6F, 77)
  {
    hide At;
    Row3();
    Down(0xD, 61, 62); Down(0x1A, 62, 63); Down(0x1A, 62, 66); Down(0xD, 61, 69); Down(0x1B, 69, 70);
    Down(0x1B, 69, 73); Down(0x37, 73, 74); Down(0x37, 73, 77);
  }

  lemma Row5()
    ensures At(7, 80) && At(0xE, 81) && At(0x1C, 82) && At(0x38, 83)
    ensures At(0x70, 84) && At(0x71, 87) && At(0x39, 90) && At(0x72, 91)
  {
    hide At;
    Row2();
    Down(3, 44, 80); Down(7, 80, 81); Down(0xE, 81, 82); Down(0x1C, 82, 83); Down(0x38, 83, 84);
    Down(0x38, 83, 87); Down(0x1C, 82, 90); Down(0x39, 90, 91);
  }

  lemma Row6()
    ensures At(0x73, 94) && At(0x1D, 97) && At(0x3A, 98) && At(0x74, 99)
    ensures At(0x75, 102) && At(0x3B, 105) && At(0x76, 106) && At(0x77, 109)
  {
    hide At;
    Row5();
    Down(0x39, 90, 94); Down(0xE, 81, 97); Down(0x1D, 97, 98); Down(0x3A, 98, 99); Down(0x3A, 98, 102);
    Down(0x1D, 97, 105); Down(0x3B, 105, 106); Down(0x3B, 105, 109);
  }

  lemma Row7()
    ensures At(0xF, 112) && At(0x1E, 113) && At(0x3C, 114) && At(0x78, 115)
    ensures At(0x79, 118) && At(0x3D, 121) && At(0x7A, 122) && At(0x7B, 125)
  {
    hide At;
    Row5();
    Down(7, 80, 112); Down(0xF, 112, 113); Down(0x1E, 113, 114); Down(0x3C, 114, 115); Down(0x3C, 114, 118);
    Down(0x1E, 113, 121); Down(0x3D, 121, 122); Down(0x3D, 121, 125);
  }

  lemma Row8()
    ensures At(0x1F, 128) && At(0x3E, 129) && At(0x7C, 130) && At(0x7D, 133)
    ensures At(0x3F, 136) && At(0x7E, 137) && At(0xFC, 138) && At(0xFD, 141)
  {
    hide At;
    Row7();
    Down(0xF, 112, 128); Down(0x1F, 128, 129); Down(0x3E, 129, 130); Down(0x3E, 129, 133); Down(0x1F, 128, 136);
    Down(0x3F, 136, 137); Down(0x7E, 137, 138); Down(0x7E, 137, 141);
  }

  lemma Row9()
    ensures At(0x7F, 144) && At(0xFE, 145) && At(0xFF, 148) && At(0x1FE, 149)
    ensures At(0x3FC, 150) && At(0x3FD, 153) && At(0x1FF, 156) && At(0x3FE, 157)
  {
    hide At;
    Row8();
    Down(0x3F, 136, 144); Down(0x7F, 144, 145); Down(0x7F, 144, 148); Down(0xFF, 148, 149);
    Down(0x1FE, 149, 150); Down(0x1FE, 149, 153); Down(0xFF, 148, 156); Down(0x1FF, 156, 157);
  }

  lemma Row10()
    ensures At(0x7FD, 159) && At(0x3FF, 162) && At(0x7FE, 163) && At(0xFFD, 165)
    ensures At(0x7FF, 168) && At(0xFFE, 169) && At(0x1FFC, 170) && At(0x1FFD, 173)
  {
    hide At;
    Row9();
    Down(0x3FE, 157, 159); Down(0x1FF, 156, 162); Down(0x3FF, 162, 163); Down(0x7FE, 163, 165);
    Down(0x3FF, 162, 168); Down(0x7FF, 168, 169); Down(0xFFE, 169, 170); Down(0xFFE, 169, 173);
  }

  lemma Row11()
    ensures At(0xFFF, 176) && At(0x1FFE, 177) && At(0x1FFF, 180) && At(0x3FFE, 181)
    ensures At(0x3FFF, 184) && At(0x7FFE, 185) && At(0x7FFF, 188) && At(0xFFFF, 190)
  {
    hide At;
    Row10();
    Down(0x7FF, 168, 176); Down(0xFFF, 176, 177); Down(0xFFF, 176, 180); Down(0x1FFF, 180, 181);
    Down(0x1FFF, 180, 184); Down(0x3FFF, 184, 185); Down(0x3FFF, 184, 188); Down(0x7FFF, 188, 190);
  }

  lemma Row12()
    ensures At(0x1FFFE, 191) && At(0x3FFFC, 192) && At(0x7FFF8, 193) && At(0x7FFF9, 196)
    ensures At(0xFFFF3, 198) && At(0x3FFFD, 201) && At(0x7FFFA, 202) && At(0xFFFF4, 203)
  {
    hide At;
    Row11();
    Down(0xFFFF, 190, 191); Down(0x1FFFE, 191, 192); Down(0x3FFFC, 192, 193); Down(0x3FFFC, 192, 196);
    Down(0x7FFF9, 196, 198); Down(0x1FFFE, 191, 201); Down(0x3FFFD, 201, 202); Down(0x7FFFA, 202, 203);
  }

  lemma Row13()
    ensures At(0xFFFF5, 206) && At(0x7FFFB, 209) && At(0xFFFF6, 210) && At(0xFFFF7, 213)
    ensures At(0x1FFFEE, 214) && At(0x1FFFEF, 217) && At(0x1FFFF, 220) && At(0x3FFFE, 221)
  {
    hide At;
    Row11(); Row12();
    Down(0x7FFFA, 202, 206); Down(0x3FFFD, 201, 209); Down(0x7FFFB, 209, 210); Down(0x7FFFB, 209, 213);
    Down(0xFFFF7, 213, 214); Down(0xFFFF7, 213, 217); Down(0xFFFF, 190, 220); Down(0x1FFFF, 220, 221);
  }

  lemma Row14()
    ensures At(0x7FFFC, 222) && At(0xFFFF8, 223) && At(0x1FFFF0, 224) && At(0x1FFFF1, 227)
    ensures At(0xFFFF9, 230) && At(0x1FFFF2, 231) && At(0x1FFFF3, 234) && At(0x7FFFD, 237)
  {
    hide At;
    Row13();
    Down(0x3FFFE, 221, 222); Down(0x7FFFC, 222, 223); Down(0xFFFF8, 223, 224); Down(0xFFFF8, 223, 227);
    Down(0x7FFFC, 222, 230); Down(0xFFFF9, 230, 231); Down(0xFFFF9, 230, 234); Down(0x3FFFE, 221, 237);
  }

  lemma Row15()
    ensures At(0xFFFFA, 238) && At(0x1FFFF4, 239) && At(0x3FFFE9, 241) && At(0x1FFFF5, 244)
    ensures At(0x3FFFEA, 245) && At(0x3FFFEB, 248) && At(0xFFFFB, 251) && At(0x1FFFF6, 252)
  {
    hide At;
    Row14();
    Down(0x7FFFD, 237, 238); Down(0xFFFFA, 238, 239); Down(0x1FFFF4, 239, 241); Down(0xFFFFA, 238, 244);
    Down(0x1FFFF5, 244, 245); Down(0x1FFFF5, 244, 248); Down(0x7FFFD, 237, 251); Down(0xFFFFB, 251, 252);
  }

  lemma Row16()
    ensures At(0x3FFFEC, 253) && At(0x3FFFED, 256) && At(0x1FFFF7, 259) && At(0x3FFFEE, 260)
    ensures At(0x3FFFEF, 263) && At(0x3FFFF, 266) && At(0x7FFFE, 267) && At(0xFFFFC, 268)
  {
    hide At;
    Row13(); Row15();
    Down(0x1FFFF6, 252, 253); Down(0x1FFFF6, 252, 256); Down(0xFFFFB, 251, 259); Down(0x1FFFF7, 259, 260);
    Down(0x1FFFF7, 259, 263); Down(0x1FFFF, 220, 266); Down(0x3FFFF, 266, 267); Down(0x7FFFE, 267, 268);
  }

  lemma Row17()
    ensures At(0x1FFFF8, 269) && At(0x3FFFF0, 270) && At(0x3FFFF1, 273) && At(0x1FFFF9, 276)
    ensures At(0x3FFFF2, 277) && At(0x3FFFF3, 280) && At(0xFFFFD, 283) && At(0x1FFFFA, 284)
  {
    hide At;
    Row16();
    Down(0xFFFFC, 268, 269); Down(0x1FFFF8, 269, 270); Down(0x1FFFF8, 269, 273); Down(0xFFFFC, 268, 276);
    Down(0x1FFFF9, 276, 277); Down(0x1FFFF9, 276, 280); Down(0x7FFFE, 267, 283); Down(0xFFFFD, 283, 284);
  }

  lemma Row18()
    ensures At(0x3FFFF4, 285) && At(0x3FFFF5, 288) && At(0x1FFFFB, 291) && At(0x3FFFF6, 292)
    ensures At(0x7FFFEC, 293) && At(0x7FFFED, 296) && At(0x3FFFF7, 299) && At(0x7FFFEE, 300)
  {
    hide At;
    Row17();
    Down(0x1FFFFA, 284, 285); Down(0x1FFFFA, 284, 288); Down(0xFFFFD, 283, 291); Down(0x1FFFFB, 291, 292);
    Down(0x3FFFF6, 292, 293); Down(0x3FFFF6, 292, 296); Down(0x1FFFFB, 291, 299); Down(0x3FFFF7, 299, 300);
  }

  lemma Row19()
    ensures At(0x7FFFEF, 303) && At(0x7FFFF, 306) && At(0xFFFFE, 307) && At(0x1FFFFC, 308)
    ensures At(0x3FFFF8, 309) && At(0x7FFFF0, 310) && At(0x7FFFF1, 313) && At(0x3FFFF9, 316)
  {
    hide At;
    Row16(); Row18();
    Down(0x3FFFF7, 299, 303); Down(0x3FFFF, 266, 306); Down(0x7FFFF, 306, 307); Down(0xFFFFE, 307, 308);
    Down(0x1FFFFC, 308, 309); Down(0x3FFFF8, 309, 310); Down(0x3FFFF8, 309, 313); Down(0x1FFFFC, 308, 316);
  }

  lemma Row20()
    ensures At(0x7FFFF2, 317) && At(0x7FFFF3, 320) && At(0x1FFFFD, 323) && At(0x3FFFFA, 324)
    ensures At(0x7FFFF4, 325) && At(0x7FFFF5, 328) && At(0x3FFFFB, 331) && At(0x7FFFF6, 332)
  {
    hide At;
    Row19();
    Down(0x3FFFF9, 316, 317); Down(0x3FFFF9, 316, 320); Down(0xFFFFE, 307, 323); Down(0x1FFFFD, 323, 324);
    Down(0x3FFFFA, 324, 325); Down(0x3FFFFA, 324, 328); Down(0x1FFFFD, 323, 331); Down(0x3FFFFB, 331, 332);
  }

  lemma Row21()
    ensures At(0x7FFFF7, 335) && At(0xFFFFF, 338) && At(0x1FFFFE, 339) && At(0x3FFFFC, 340)
    ensures At(0x7FFFF8, 341) && At(0x7FFFF9, 344) && At(0x3FFFFD, 347) && At(0x7FFFFA, 348)
  {
    hide At;
    Row19(); Row20();
    Down(0x3FFFFB, 331, 335); Down(0x7FFFF, 306, 338); Down(0xFFFFF, 338, 339); Down(0x1FFFFE, 339, 340);
    Down(0x3FFFFC, 340, 341); Down(0x3FFFFC, 340, 344); Down(0x1FFFFE, 339, 347); Down(0x3FFFFD, 347, 348);
  }

  lemma Row22()
    ensures At(0xFFFFF5, 350) && At(0x7FFFFB, 353) && At(0xFFFFF6, 354) && At(0xFFFFF7, 357)
    ensures At(0x1FFFFF, 360) && At(0x3FFFFE, 361) && At(0x7FFFFC, 362) && At(0xFFFFF8, 363)
  {
    hide At;
    Row21();
    Down(0x7FFFFA, 348, 350); Down(0x3FFFFD, 347, 353); Down(0x7FFFFB, 353, 354); Down(0x7FFFFB, 353, 357);
    Down(0xFFFFF, 338, 360); Down(0x1FFFFF, 360, 361); Down(0x3FFFFE, 361, 362); Down(0x7FFFFC, 362, 363);
  }

  lemma Row23()
    ensures At(0xFFFFF9, 366) && At(0x7FFFFD, 369) && At(0xFFFFFA, 370) && At(0xFFFFFB, 373)
    ensures At(0x1FFFFF6, 374) && At(0x1FFFFF7, 377) && At(0x3FFFFF, 380) && At(0x7FFFFE, 381)
  {
    hide At;
    Row22();
    Down(0x7FFFFC, 362, 366); Down(0x3FFFFE, 361, 369); Down(0x7FFFFD, 369, 370); Down(0x7FFFFD, 369, 373);
    Down(0xFFFFFB, 373, 374); Down(0xFFFFFB, 373, 377); Down(0x1FFFFF, 360, 380); Down(0x3FFFFF, 380, 381);
  }

  lemma Row24()
    ensures At(0xFFFFFC, 382) && At(0x1FFFFF8, 383) && At(0x3FFFFF0, 384) && At(0x3FFFFF1, 387)
    ensures At(0x1FFFFF9, 390) && At(0x3FFFFF2, 391) && At(0x3FFFFF3, 394) && At(0xFFFFFD, 397)
  {
    hide At;
    Row23();
    Down(0x7FFFFE, 381, 382); Down(0xFFFFFC, 382, 383); Down(0x1FFFFF8, 383, 384); Down(0x1FFFFF8, 383, 387);
    Down(0xFFFFFC, 382, 390); Down(0x1FFFFF9, 390, 391); Down(0x1FFFFF9, 390, 394); Down(0x7FFFFE, 381, 397);
  }

  lemma Row25()
    ensures At(0x1FFFFFA, 398) && At(0x3FFFFF4, 399) && At(0x3FFFFF5, 402) && At(0x1FFFFFB, 405)
    ensures At(0x3FFFFF6, 406) && At(0x3FFFFF7, 409) && At(0x7FFFFEF, 411) && At(0x7FFFFF, 414)
  {
    hide At;
    Row23(); Row24();
    Down(0xFFFFFD, 397, 398); Down(0x1FFFFFA, 398, 399); Down(0x1FFFFFA, 398, 402); Down(0xFFFFFD, 397, 405);
    Down(0x1FFFFFB, 405, 406); Down(0x1FFFFFB, 405, 409); Down(0x3FFFFF7, 409, 411); Down(0x3FFFFF, 380, 414);
  }

  lemma Row26()
    ensures At(0xFFFFFE, 415) && At(0x1FFFFFC, 416) && At(0x3FFFFF8, 417) && At(0x7FFFFF0, 418)
    ensures At(0x7FFFFF1, 421) && At(0x3FFFFF9, 424) && At(0x7FFFFF2, 425) && At(0x7FFFFF3, 428)
  {
    hide At;
    Row25();
    Down(0x7FFFFF, 414, 415); Down(0xFFFFFE, 415, 416); Down(0x1FFFFFC, 416, 417); Down(0x3FFFFF8, 417, 418);
    Down(0x3FFFFF8, 417, 421); Down(0x1FFFFFC, 416, 424); Down(0x3FFFFF9, 424, 425); Down(0x3FFFFF9, 424, 428);
  }

  lemma Row27()
    ensures At(0x1FFFFFD, 431) && At(0x3FFFFFA, 432) && At(0x7FFFFF4, 433) && At(0x7FFFFF5, 436)
    ensures At(0x3FFFFFB, 439) && At(0x7FFFFF6, 440) && At(0x7FFFFF7, 443) && At(0xFFFFFF, 446)
  {
    hide At;
    Row25(); Row26();
    Down(0xFFFFFE, 415, 431); Down(0x1FFFFFD, 431, 432); Down(0x3FFFFFA, 432, 433); Down(0x3FFFFFA, 432, 436);
    Down(0x1FFFFFD, 431, 439); Down(0x3FFFFFB, 439, 440); Down(0x3FFFFFB, 439, 443); Down(0x7FFFFF, 414, 446);
  }

  lemma Row28()
    ensures At(0x1FFFFFE, 447) && At(0x3FFFFFC, 448) && At(0x7FFFFF8, 449) && At(0xFFFFFF1, 451)
    ensures At(0x7FFFFF9, 454) && At(0xFFFFFF2, 455) && At(0xFFFFFF3, 458) && At(0x3FFFFFD, 461)
  {
    hide At;
    Row27();
    Down(0xFFFFFF, 446, 447); Down(0x1FFFFFE, 447, 448); Down(0x3FFFFFC, 448, 449); Down(0x7FFFFF8, 449, 451);
    Down(0x3FFFFFC, 448, 454); Down(0x7FFFFF9, 454, 455); Down(0x7FFFFF9, 454, 458); Down(0x1FFFFFE, 447, 461);
  }

  lemma Row29()
    ensures At(0x7FFFFFA, 462) && At(0xFFFFFF4, 463) && At(0xFFFFFF5, 466) && At(0x7FFFFFB, 469)
    ensures At(0xFFFFFF6, 470) && At(0xFFFFFF7, 473) && At(0x1FFFFFF, 476) && At(0x3FFFFFE, 477)
  {
    hide At;
    Row27(); Row28();
    Down(0x3FFFFFD, 461, 462); Down(0x7FFFFFA, 462, 463); Down(0x7FFFFFA, 462, 466); Down(0x3FFFFFD, 461, 469);
    Down(0x7FFFFFB, 469, 470); Down(0x7FFFFFB, 469, 473); Down(0xFFFFFF, 446, 476); Down(0x1FFFFFF, 476, 477);
  }

  lemma Row30()
    ensures At(0x7FFFFFC, 478) && At(0xFFFFFF8, 479) && At(0xFFFFFF9, 482) && At(0x7FFFFFD, 485)
    ensures At(0xFFFFFFA, 486) && At(0xFFFFFFB, 489) && At(0x3FFFFFF, 492) && At(0x7FFFFFE, 493)
  {
    hide At;
    Row29();
    Down(0x3FFFFFE, 477, 478); Down(0x7FFFFFC, 478, 479); Down(0x7FFFFFC, 478, 482); Down(0x3FFFFFE, 477, 485);
    Down(0x7FFFFFD, 485, 486); Down(0x7FFFFFD, 485, 489); Down(0x1FFFFFF, 476, 492); Down(0x3FFFFFF, 492, 493);
  }

  lemma Row31()
    ensures At(0xFFFFFFC, 494) && At(0xFFFFFFD, 497) && At(0x7FFFFFF, 500) && At(0xFFFFFFE, 501)
    ensures At(0xFFFFFFF, 504) && At(0x1FFFFFFF, 506) && At(0x3FFFFFFE, 507) && At(0x3FFFFFFF, 510)
  {
    hide At;
    Row30();
    Down(0x7FFFFFE, 493, 494); Down(0x7FFFFFE, 493, 497); Down(0x3FFFFFF, 492, 500); Down(0x7FFFFFF, 500, 501);
    Down(0x7FFFFFF, 500, 504); Down(0xFFFFFFF, 504, 506); Down(0x1FFFFFFF, 506, 507);
    Down(0x1FFFFFFF, 506, 510);
  }

  lemma Octets0(c: Byte)
    requires 0 <= c < 6
    ensures Decodes(c)
  {
    hide At, Decodes, Code, Huffman.Follow, Huffman.BitsBehindOne, QPACK;
    assert Spot(0, 0x3FF8, 170, 171); assert Spot(1, 0xFFFFD8, 293, 294); assert Spot(2, 0x1FFFFFE2, 451, 452);
    assert Spot(3, 0x1FFFFFE3, 451, 453); assert Spot(4, 0x1FFFFFE4, 455, 456);
    assert Spot(5, 0x1FFFFFE5, 455, 457);
    hide *;
    Row10(); Row18(); Row28();
    Leaf(0, 0x1FFC, 170, 171); Leaf(1, 0x7FFFEC, 293, 294); Leaf(2, 0xFFFFFF1, 451, 452);
    Leaf(3, 0xFFFFFF1, 451, 453); Leaf(4, 0xFFFFFF2, 455, 456); Leaf(5, 0xFFFFFF2, 455, 457);
  }

  lemma Octets1(c: Byte)
    requires 6 <= c < 12
    ensures Decodes(c)
  {
    hide At, Decodes, Code, Huffman.Follow, Huffman.BitsBehindOne, QPACK;
    assert Spot(6, 0x1FFFFFE6, 458, 459); assert Spot(7, 0x1FFFFFE7, 458, 460);
    assert Spot(8, 0x1FFFFFE8, 463, 464); assert Spot(9, 0x1FFFFEA, 350, 351);
    assert Spot(10, 0x7FFFFFFC, 507, 508); assert Spot(11, 0x1FFFFFE9, 463, 465);
    hide *;
    Row22(); Row28(); Row29(); Row31();
    Leaf(6, 0xFFFFFF3, 458, 459); Leaf(7, 0xFFFFFF3, 458, 460); Leaf(8, 0xFFFFFF4, 463, 464);
    Leaf(9, 0xFFFFF5, 350, 351); Leaf(10, 0x3FFFFFFE, 507, 508); Leaf(11, 0xFFFFFF4, 463, 465);
  }

  lemma Octets2(c: Byte)
    requires 12 <= c < 18
    ensures Decodes(c)
  {
    hide At, Decodes, Code, Huffman.Follow, Huffman.BitsBehindOne, QPACK;
    assert Spot(12, 0x1FFFFFEA, 466, 467); assert Spot(13, 0x7FFFFFFD, 507, 509);
    assert Spot(14, 0x1FFFFFEB, 466, 468); assert Spot(15, 0x1FFFFFEC, 470, 471);
    assert Spot(16, 0x1FFFFFED, 470, 472); assert Spot(17, 0x1FFFFFEE, 473, 474);
    hide *;
    Row29(); Row31();
    Leaf(12, 0xFFFFFF5, 466, 467); Leaf(13, 0x3FFFFFFE, 507, 509); Leaf(14, 0xFFFFFF5, 466, 468);
    Leaf(15, 0xFFFFFF6, 470, 471); Leaf(16, 0xFFFFFF6, 470, 472); Leaf(17, 0xFFFFFF7, 473, 474);
  }

  lemma Octets3(c: Byte)
    requires 18 <= c < 24
    ensures Decodes(c)
  {
    hide At, Decodes, Code, Huffman.Follow, Huffman.BitsBehindOne, QPACK;
    assert Spot(18, 0x1FFFFFEF, 473, 475); assert Spot(19, 0x1FFFFFF0, 479, 480);
    assert Spot(20, 0x1FFFFFF1, 479, 481); assert Spot(21, 0x1FFFFFF2, 482, 483);
    assert Spot(22, 0x7FFFFFFE, 510, 511); assert Spot(23, 0x1FFFFFF3, 482, 484);
    hide *;
    Row29(); Row30(); Row31();
    Leaf(18, 0xFFFFFF7, 473, 475); Leaf(19, 0xFFFFFF8, 479, 480); Leaf(20, 0xFFFFFF8, 479, 481);
    Leaf(21, 0xFFFFFF9, 482, 483); Leaf(22, 0x3FFFFFFF, 510, 511); Leaf(23, 0xFFFFFF9, 482, 484);
  }

  lemma Octets4(c: Byte)
    requires 24 <= c < 30
    ensures Decodes(c)
  {
    hide At, Decodes, Code, Huffman.Follow, Huffman.BitsBehindOne, QPACK;
    assert Spot(24, 0x1FFFFFF4, 486, 487); assert Spot(25, 0x1FFFFFF5, 486, 488);
    assert Spot(26, 0x1FFFFFF6, 489, 490); assert Spot(27, 0x1FFFFFF7, 489, 491);
    assert Spot(28, 0x1FFFFFF8, 494, 495); assert Spot(29, 0x1FFFFFF9, 494, 496);
    hide *;
    Row30(); Row31();
    Leaf(24, 0xFFFFFFA, 486, 487); Leaf(25, 0xFFFFFFA, 486, 488); Leaf(26, 0xFFFFFFB, 489, 490);
    Leaf(27, 0xFFFFFFB, 489, 491); Leaf(28, 0xFFFFFFC, 494, 495); Leaf(29, 0xFFFFFFC, 494, 496);
  }

  lemma Octets5(c: Byte)
    requires 30 <= c < 36
    ensures Decodes(c)
  {
    hide At, Decodes, Code, Huffman.Follow, Huffman.BitsBehindOne, QPACK;
    assert Spot(30, 0x1FFFFFFA, 497, 498); assert Spot(31, 0x1FFFFFFB, 497, 499); assert Spot(32, 0x54, 23, 24);
    assert Spot(33, 0x7F8, 150, 151); assert Spot(34, 0x7F9, 150, 152); assert Spot(35, 0x1FFA, 165, 166);
    hide *;
    Row1(); Row9(); Row10(); Row31();
    Leaf(30, 0xFFFFFFD, 497, 498); Leaf(31, 0xFFFFFFD, 497, 499); Leaf(32, 0x2A, 23, 24);
    Leaf(33, 0x3FC, 150, 151); Leaf(34, 0x3FC, 150, 152); Leaf(35, 0xFFD, 165, 166);
  }

  lemma Octets6(c: Byte)
    requires 36 <= c < 42
    ensures Decodes(c)
  {
    hide At, Decodes, Code, Huffman.Follow, Huffman.BitsBehindOne, QPACK;
    assert Spot(36, 0x3FF9, 170, 172); assert Spot(37, 0x55, 23, 25); assert Spot(38, 0x1F8, 138, 139);
    assert Spot(39, 0xFFA, 159, 160); assert Spot(40, 0x7FA, 153, 154); assert Spot(41, 0x7FB, 153, 155);
    hide *;
    Row1(); Row8(); Row9(); Row10();
    Leaf(36, 0x1FFC, 170, 172); Leaf(37, 0x2A, 23, 25); Leaf(38, 0xFC, 138, 139); Leaf(39, 0x7FD, 159, 160);
    Leaf(40, 0x3FD, 153, 154); Leaf(41, 0x3FD, 153, 155);
  }

  lemma Octets7(c: Byte)
    requires 42 <= c < 48
    ensures Decodes(c)
  {
    hide At, Decodes, Code, Huffman.Follow, Huffman.BitsBehindOne, QPACK;
    assert Spot(42, 0x1F9, 138, 140); assert Spot(43, 0xFFB, 159, 161); assert Spot(44, 0x1FA, 141, 142);
    assert Spot(45, 0x56, 26, 27); assert Spot(46, 0x57, 26, 28); assert Spot(47, 0x58, 31, 32);
    hide *;
    Row1(); Row2(); Row8(); Row10();
    Leaf(42, 0xFC, 138, 140); Leaf(43, 0x7FD, 159, 161); Leaf(44, 0xFD, 141, 142); Leaf(45, 0x2B, 26, 27);
    Leaf(46, 0x2B, 26, 28); Leaf(47, 0x2C, 31, 32);
  }

  lemma Octets8(c: Byte)
    requires 48 <= c < 54
    ensures Decodes(c)
  {
    hide At, Decodes, Code, Huffman.Follow, Huffman.BitsBehindOne, QPACK;
    assert Spot(48, 0x20, 4, 5); assert Spot(49, 0x21, 4, 6); assert Spot(50, 0x22, 7, 8);
    assert Spot(51, 0x59, 31, 33); assert Spot(52, 0x5A, 34, 35); assert Spot(53, 0x5B, 34, 36);
    hide *;
    Row0(); Row2();
    Leaf(48, 0x10, 4, 5); Leaf(49, 0x10, 4, 6); Leaf(50, 0x11, 7, 8); Leaf(51, 0x2C, 31, 33);
    Leaf(52, 0x2D, 34, 35); Leaf(53, 0x2D, 34, 36);
  }

  lemma Octets9(c: Byte)
    requires 54 <= c < 60
    ensures Decodes(c)
  {
    hide At, Decodes, Code, Huffman.Follow, Huffman.BitsBehindOne, QPACK;
    assert Spot(54, 0x5C, 38, 39); assert Spot(55, 0x5D, 38, 40); assert Spot(56, 0x5E, 41, 42);
    assert Spot(57, 0x5F, 41, 43); assert Spot(58, 0xDC, 74, 75); assert Spot(59, 0x1FB, 141, 143);
    hide *;
    Row2(); Row4(); Row8();
    Leaf(54, 0x2E, 38, 39); Leaf(55, 0x2E, 38, 40); Leaf(56, 0x2F, 41, 42); Leaf(57, 0x2F, 41, 43);
    Leaf(58, 0x6E, 74, 75); Leaf(59, 0xFD, 141, 143);
  }

  lemma Octets10(c: Byte)
    requires 60 <= c < 66
    ensures Decodes(c)
  {
    hide At, Decodes, Code, Huffman.Follow, Huffman.BitsBehindOne, QPACK;
    assert Spot(60, 0xFFFC, 185, 186); assert Spot(61, 0x60, 48, 49); assert Spot(62, 0x1FFB, 165, 167);
    assert Spot(63, 0x7FC, 157, 158); assert Spot(64, 0x3FFA, 173, 174); assert Spot(65, 0x61, 48, 50);
    hide *;
    Row3(); Row9(); Row10(); Row11();
    Leaf(60, 0x7FFE, 185, 186); Leaf(61, 0x30, 48, 49); Leaf(62, 0xFFD, 165, 167); Leaf(63, 0x3FE, 157, 158);
    Leaf(64, 0x1FFD, 173, 174); Leaf(65, 0x30, 48, 50);
  }

  lemma Octets11(c: Byte)
    requires 66 <= c < 72
    ensures Decodes(c)
  {
    hide At, Decodes, Code, Huffman.Follow, Huffman.BitsBehindOne, QPACK;
    assert Spot(66, 0xDD, 74, 76); assert Spot(67, 0xDE, 77, 78); assert Spot(68, 0xDF, 77, 79);
    assert Spot(69, 0xE0, 84, 85); assert Spot(70, 0xE1, 84, 86); assert Spot(71, 0xE2, 87, 88);
    hide *;
    Row4(); Row5();
    Leaf(66, 0x6E, 74, 76); Leaf(67, 0x6F, 77, 78); Leaf(68, 0x6F, 77, 79); Leaf(69, 0x70, 84, 85);
    Leaf(70, 0x70, 84, 86); Leaf(71, 0x71, 87, 88);
  }

  lemma Octets12(c: Byte)
    requires 72 <= c < 78
    ensures Decodes(c)
  {
    hide At, Decodes, Code, Huffman.Follow, Huffman.BitsBehindOne, QPACK;
    assert Spot(72, 0xE3, 87, 89); assert Spot(73, 0xE4, 91, 92); assert Spot(74, 0xE5, 91, 93);
    assert Spot(75, 0xE6, 94, 95); assert Spot(76, 0xE7, 94, 96); assert Spot(77, 0xE8, 99, 100);
    hide *;
    Row5(); Row6();
    Leaf(72, 0x71, 87, 89); Leaf(73, 0x72, 91, 92); Leaf(74, 0x72, 91, 93); Leaf(75, 0x73, 94, 95);
    Leaf(76, 0x73, 94, 96); Leaf(77, 0x74, 99, 100);
  }

  lemma Octets13(c: Byte)
    requires 78 <= c < 84
    ensures Decodes(c)
  {
    hide At, Decodes, Code, Huffman.Follow, Huffman.BitsBehindOne, QPACK;
    assert Spot(78, 0xE9, 99, 101); assert Spot(79, 0xEA, 102, 103); assert Spot(80, 0xEB, 102, 104);
    assert Spot(81, 0xEC, 106, 107); assert Spot(82, 0xED, 106, 108); assert Spot(83, 0xEE, 109, 110);
    hide *;
    Row6();
    Leaf(78, 0x74, 99, 101); Leaf(79, 0x75, 102, 103); Leaf(80, 0x75, 102, 104); Leaf(81, 0x76, 106, 107);
    Leaf(82, 0x76, 106, 108); Leaf(83, 0x77, 109, 110);
  }

  lemma Octets14(c: Byte)
    requires 84 <= c < 90
    ensures Decodes(c)
  {
    hide At, Decodes, Code, Huffman.Follow, Huffman.BitsBehindOne, QPACK;
    assert Spot(84, 0xEF, 109, 111); assert Spot(85, 0xF0, 115, 116); assert Spot(86, 0xF1, 115, 117);
    assert Spot(87, 0xF2, 118, 119); assert Spot(88, 0x1FC, 145, 146); assert Spot(89, 0xF3, 118, 120);
    hide *;
    Row6(); Row7(); Row9();
    Leaf(84, 0x77, 109, 111); Leaf(85, 0x78, 115, 116); Leaf(86, 0x78, 115, 117); Leaf(87, 0x79, 118, 119);
    Leaf(88, 0xFE, 145, 146); Leaf(89, 0x79, 118, 120);
  }

  lemma Octets15(c: Byte)
    requires 90 <= c < 96
    ensures Decodes(c)
  {
    hide At, Decodes, Code, Huffman.Follow, Huffman.BitsBehindOne, QPACK;
    assert Spot(90, 0x1FD, 145, 147); assert Spot(91, 0x3FFB, 173, 175); assert Spot(92, 0xFFFF0, 193, 194);
    assert Spot(93, 0x3FFC, 177, 178); assert Spot(94, 0x7FFC, 181, 182); assert Spot(95, 0x62, 51, 52);
    hide *;
    Row3(); Row9(); Row10(); Row11(); Row12();
    Leaf(90, 0xFE, 145, 147); Leaf(91, 0x1FFD, 173, 175); Leaf(92, 0x7FFF8, 193, 194);
    Leaf(93, 0x1FFE, 177, 178); Leaf(94, 0x3FFE, 181, 182); Leaf(95, 0x31, 51, 52);
  }

  lemma Octets16(c: Byte)
    requires 96 <= c < 102
    ensures Decodes(c)
  {
    hide At, Decodes, Code, Huffman.Follow, Huffman.BitsBehindOne, QPACK;
    assert Spot(96, 0xFFFD, 185, 187); assert Spot(97, 0x23, 7, 9); assert Spot(98, 0x63, 51, 53);
    assert Spot(99, 0x24, 11, 12); assert Spot(100, 0x64, 55, 56); assert Spot(101, 0x25, 11, 13);
    hide *;
    Row0(); Row3(); Row11();
    Leaf(96, 0x7FFE, 185, 187); Leaf(97, 0x11, 7, 9); Leaf(98, 0x31, 51, 53); Leaf(99, 0x12, 11, 12);
    Leaf(100, 0x32, 55, 56); Leaf(101, 0x12, 11, 13);
  }

  lemma Octets17(c: Byte)
    requires 102 <= c < 108
    ensures Decodes(c)
  {
    hide At, Decodes, Code, Huffman.Follow, Huffman.BitsBehindOne, QPACK;
    assert Spot(102, 0x65, 55, 57); assert Spot(103, 0x66, 58, 59); assert Spot(104, 0x67, 58, 60);
    assert Spot(105, 0x26, 14, 15); assert Spot(106, 0xF4, 122, 123); assert Spot(107, 0xF5, 122, 124);
    hide *;
    Row1(); Row3(); Row7();
    Leaf(102, 0x32, 55, 57); Leaf(103, 0x33, 58, 59); Leaf(104, 0x33, 58, 60); Leaf(105, 0x13, 14, 15);
    Leaf(106, 0x7A, 122, 123); Leaf(107, 0x7A, 122, 124);
  }

  lemma Octets18(c: Byte)
    requires 108 <= c < 114
    ensures Decodes(c)
  {
    hide At, Decodes, Code, Huffman.Follow, Huffman.BitsBehindOne, QPACK;
    assert Spot(108, 0x68, 63, 64); assert Spot(109, 0x69, 63, 65); assert Spot(110, 0x6A, 66, 67);
    assert Spot(111, 0x27, 14, 16); assert Spot(112, 0x6B, 66, 68); assert Spot(113, 0xF6, 125, 126);
    hide *;
    Row1(); Row4(); Row7();
    Leaf(108, 0x34, 63, 64); Leaf(109, 0x34, 63, 65); Leaf(110, 0x35, 66, 67); Leaf(111, 0x13, 14, 16);
    Leaf(112, 0x35, 66, 68); Leaf(113, 0x7B, 125, 126);
  }

  lemma Octets19(c: Byte)
    requires 114 <= c < 120
    ensures Decodes(c)
  {
    hide At, Decodes, Code, Huffman.Follow, Huffman.BitsBehindOne, QPACK;
    assert Spot(114, 0x6C, 70, 71); assert Spot(115, 0x28, 19, 20); assert Spot(116, 0x29, 19, 21);
    assert Spot(117, 0x6D, 70, 72); assert Spot(118, 0xF7, 125, 127); assert Spot(119, 0xF8, 130, 131);
    hide *;
    Row1(); Row4(); Row7(); Row8();
    Leaf(114, 0x36, 70, 71); Leaf(115, 0x14, 19, 20); Leaf(116, 0x14, 19, 21); Leaf(117, 0x36, 70, 72);
    Leaf(118, 0x7B, 125, 127); Leaf(119, 0x7C, 130, 131);
  }

  lemma Octets20(c: Byte)
    requires 120 <= c < 126
    ensures Decodes(c)
  {
    hide At, Decodes, Code, Huffman.Follow, Huffman.BitsBehindOne, QPACK;
    assert Spot(120, 0xF9, 130, 132); assert Spot(121, 0xFA, 133, 134); assert Spot(122, 0xFB, 133, 135);
    assert Spot(123, 0xFFFE, 188, 189); assert Spot(124, 0xFFC, 163, 164); assert Spot(125, 0x7FFD, 181, 183);
    hide *;
    Row8(); Row10(); Row11();
    Leaf(120, 0x7C, 130, 132); Leaf(121, 0x7D, 133, 134); Leaf(122, 0x7D, 133, 135);
    Leaf(123, 0x7FFF, 188, 189); Leaf(124, 0x7FE, 163, 164); Leaf(125, 0x3FFE, 181, 183);
  }

  lemma Octets21(c: Byte)
    requires 126 <= c < 132
    ensures Decodes(c)
  {
    hide At, Decodes, Code, Huffman.Follow, Huffman.BitsBehindOne, QPACK;
    assert Spot(126, 0x3FFD, 177, 179); assert Spot(127, 0x1FFFFFFC, 501, 502);
    assert Spot(128, 0x1FFFE6, 198, 199); assert Spot(129, 0x7FFFD2, 241, 242);
    assert Spot(130, 0x1FFFE7, 198, 200); assert Spot(131, 0x1FFFE8, 203, 204);
    hide *;
    Row11(); Row12(); Row15(); Row31();
    Leaf(126, 0x1FFE, 177, 179); Leaf(127, 0xFFFFFFE, 501, 502); Leaf(128, 0xFFFF3, 198, 199);
    Leaf(129, 0x3FFFE9, 241, 242); Leaf(130, 0xFFFF3, 198, 200); Leaf(131, 0xFFFF4, 203, 204);
  }

  lemma Octets22(c: Byte)
    requires 132 <= c < 138
    ensures Decodes(c)
  {
    hide At, Decodes, Code, Huffman.Follow, Huffman.BitsBehindOne, QPACK;
    assert Spot(132, 0x7FFFD3, 241, 243); assert Spot(133, 0x7FFFD4, 245, 246);
    assert Spot(134, 0x7FFFD5, 245, 247); assert Spot(135, 0xFFFFD9, 293, 295);
    assert Spot(136, 0x7FFFD6, 248, 249); assert Spot(137, 0xFFFFDA, 296, 297);
    hide *;
    Row15(); Row18();
    Leaf(132, 0x3FFFE9, 241, 243); Leaf(133, 0x3FFFEA, 245, 246); Leaf(134, 0x3FFFEA, 245, 247);
    Leaf(135, 0x7FFFEC, 293, 295); Leaf(136, 0x3FFFEB, 248, 249); Leaf(137, 0x7FFFED, 296, 297);
  }

  lemma Octets23(c: Byte)
    requires 138 <= c < 144
    ensures Decodes(c)
  {
    hide At, Decodes, Code, Huffman.Follow, Huffman.BitsBehindOne, QPACK;
    assert Spot(138, 0xFFFFDB, 296, 298); assert Spot(139, 0xFFFFDC, 300, 301);
    assert Spot(140, 0xFFFFDD, 300, 302); assert Spot(141, 0xFFFFDE, 303, 304);
    assert Spot(142, 0x1FFFFEB, 350, 352); assert Spot(143, 0xFFFFDF, 303, 305);
    hide *;
    Row18(); Row19(); Row22();
    Leaf(138, 0x7FFFED, 296, 298); Leaf(139, 0x7FFFEE, 300, 301); Leaf(140, 0x7FFFEE, 300, 302);
    Leaf(141, 0x7FFFEF, 303, 304); Leaf(142, 0xFFFFF5, 350, 352); Leaf(143, 0x7FFFEF, 303, 305);
  }

  lemma Octets24(c: Byte)
    requires 144 <= c < 150
    ensures Decodes(c)
  {
    hide At, Decodes, Code, Huffman.Follow, Huffman.BitsBehindOne, QPACK;
    assert Spot(144, 0x1FFFFEC, 354, 355); assert Spot(145, 0x1FFFFED, 354, 356);
    assert Spot(146, 0x7FFFD7, 248, 250); assert Spot(147, 0xFFFFE0, 310, 311);
    assert Spot(148, 0x1FFFFEE, 357, 358); assert Spot(149, 0xFFFFE1, 310, 312);
    hide *;
    Row15(); Row19(); Row22();
    Leaf(144, 0xFFFFF6, 354, 355); Leaf(145, 0xFFFFF6, 354, 356); Leaf(146, 0x3FFFEB, 248, 250);
    Leaf(147, 0x7FFFF0, 310, 311); Leaf(148, 0xFFFFF7, 357, 358); Leaf(149, 0x7FFFF0, 310, 312);
  }

  lemma Octets25(c: Byte)
    requires 150 <= c < 156
    ensures Decodes(c)
  {
    hide At, Decodes, Code, Huffman.Follow, Huffman.BitsBehindOne, QPACK;
    assert Spot(150, 0xFFFFE2, 313, 314); assert Spot(151, 0xFFFFE3, 313, 315);
    assert Spot(152, 0xFFFFE4, 317, 318); assert Spot(153, 0x3FFFDC, 214, 215);
    assert Spot(154, 0x7FFFD8, 253, 254); assert Spot(155, 0xFFFFE5, 317, 319);
    hide *;
    Row13(); Row16(); Row19(); Row20();
    Leaf(150, 0x7FFFF1, 313, 314); Leaf(151, 0x7FFFF1, 313, 315); Leaf(152, 0x7FFFF2, 317, 318);
    Leaf(153, 0x1FFFEE, 214, 215); Leaf(154, 0x3FFFEC, 253, 254); Leaf(155, 0x7FFFF2, 317, 319);
  }

  lemma Octets26(c: Byte)
    requires 156 <= c < 162
    ensures Decodes(c)
  {
    hide At, Decodes, Code, Huffman.Follow, Huffman.BitsBehindOne, QPACK;
    assert Spot(156, 0x7FFFD9, 253, 255); assert Spot(157, 0xFFFFE6, 320, 321);
    assert Spot(158, 0xFFFFE7, 320, 322); assert Spot(159, 0x1FFFFEF, 357, 359);
    assert Spot(160, 0x7FFFDA, 256, 257); assert Spot(161, 0x3FFFDD, 214, 216);
    hide *;
    Row13(); Row16(); Row20(); Row22();
    Leaf(156, 0x3FFFEC, 253, 255); Leaf(157, 0x7FFFF3, 320, 321); Leaf(158, 0x7FFFF3, 320, 322);
    Leaf(159, 0xFFFFF7, 357, 359); Leaf(160, 0x3FFFED, 256, 257); Leaf(161, 0x1FFFEE, 214, 216);
  }

  lemma Octets27(c: Byte)
    requires 162 <= c < 168
    ensures Decodes(c)
  {
    hide At, Decodes, Code, Huffman.Follow, Huffman.BitsBehindOne, QPACK;
    assert Spot(162, 0x1FFFE9, 203, 205); assert Spot(163, 0x7FFFDB, 256, 258);
    assert Spot(164, 0x7FFFDC, 260, 261); assert Spot(165, 0xFFFFE8, 325, 326);
    assert Spot(166, 0xFFFFE9, 325, 327); assert Spot(167, 0x3FFFDE, 217, 218);
    hide *;
    Row12(); Row13(); Row16(); Row20();
    Leaf(162, 0xFFFF4, 203, 205); Leaf(163, 0x3FFFED, 256, 258); Leaf(164, 0x3FFFEE, 260, 261);
    Leaf(165, 0x7FFFF4, 325, 326); Leaf(166, 0x7FFFF4, 325, 327); Leaf(167, 0x1FFFEF, 217, 218);
  }

  lemma Octets28(c: Byte)
    requires 168 <= c < 174
    ensures Decodes(c)
  {
    hide At, Decodes, Code, Huffman.Follow, Huffman.BitsBehindOne, QPACK;
    assert Spot(168, 0xFFFFEA, 328, 329); assert Spot(169, 0x7FFFDD, 260, 262);
    assert Spot(170, 0x7FFFDE, 263, 264); assert Spot(171, 0x1FFFFF0, 363, 364);
    assert Spot(172, 0x3FFFDF, 217, 219); assert Spot(173, 0x7FFFDF, 263, 265);
    hide *;
    Row13(); Row16(); Row20(); Row22();
    Leaf(168, 0x7FFFF5, 328, 329); Leaf(169, 0x3FFFEE, 260, 262); Leaf(170, 0x3FFFEF, 263, 264);
    Leaf(171, 0xFFFFF8, 363, 364); Leaf(172, 0x1FFFEF, 217, 219); Leaf(173, 0x3FFFEF, 263, 265);
  }

  lemma Octets29(c: Byte)
    requires 174 <= c < 180
    ensures Decodes(c)
  {
    hide At, Decodes, Code, Huffman.Follow, Huffman.BitsBehindOne, QPACK;
    assert Spot(174, 0xFFFFEB, 328, 330); assert Spot(175, 0xFFFFEC, 332, 333);
    assert Spot(176, 0x3FFFE0, 224, 225); assert Spot(177, 0x3FFFE1, 224, 226);
    assert Spot(178, 0x7FFFE0, 270, 271); assert Spot(179, 0x3FFFE2, 227, 228);
    hide *;
    Row14(); Row17(); Row20();
    Leaf(174, 0x7FFFF5, 328, 330); Leaf(175, 0x7FFFF6, 332, 333); Leaf(176, 0x1FFFF0, 224, 225);
    Leaf(177, 0x1FFFF0, 224, 226); Leaf(178, 0x3FFFF0, 270, 271); Leaf(179, 0x1FFFF1, 227, 228);
  }

  lemma Octets30(c: Byte)
    requires 180 <= c < 186
    ensures Decodes(c)
  {
    hide At, Decodes, Code, Huffman.Follow, Huffman.BitsBehindOne, QPACK;
    assert Spot(180, 0xFFFFED, 332, 334); assert Spot(181, 0x7FFFE1, 270, 272);
    assert Spot(182, 0xFFFFEE, 335, 336); assert Spot(183, 0xFFFFEF, 335, 337);
    assert Spot(184, 0x1FFFEA, 206, 207); assert Spot(185, 0x7FFFE2, 273, 274);
    hide *;
    Row13(); Row17(); Row20(); Row21();
    Leaf(180, 0x7FFFF6, 332, 334); Leaf(181, 0x3FFFF0, 270, 272); Leaf(182, 0x7FFFF7, 335, 336);
    Leaf(183, 0x7FFFF7, 335, 337); Leaf(184, 0xFFFF5, 206, 207); Leaf(185, 0x3FFFF1, 273, 274);
  }

  lemma Octets31(c: Byte)
    requires 186 <= c < 192
    ensures Decodes(c)
  {
    hide At, Decodes, Code, Huffman.Follow, Huffman.BitsBehindOne, QPACK;
    assert Spot(186, 0x7FFFE3, 273, 275); assert Spot(187, 0x7FFFE4, 277, 278);
    assert Spot(188, 0xFFFFF0, 341, 342); assert Spot(189, 0x7FFFE5, 277, 279);
    assert Spot(190, 0x7FFFE6, 280, 281); assert Spot(191, 0xFFFFF1, 341, 343);
    hide *;
    Row17(); Row21();
    Leaf(186, 0x3FFFF1, 273, 275); Leaf(187, 0x3FFFF2, 277, 278); Leaf(188, 0x7FFFF8, 341, 342);
    Leaf(189, 0x3FFFF2, 277, 279); Leaf(190, 0x3FFFF3, 280, 281); Leaf(191, 0x7FFFF8, 341, 343);
  }

  lemma Octets32(c: Byte)
    requires 192 <= c < 198
    ensures Decodes(c)
  {
    hide At, Decodes, Code, Huffman.Follow, Huffman.BitsBehindOne, QPACK;
    assert Spot(192, 0x7FFFFE0, 384, 385); assert Spot(193, 0x7FFFFE1, 384, 386);
    assert Spot(194, 0x1FFFEB, 206, 208); assert Spot(195, 0xFFFF1, 193, 195);
    assert Spot(196, 0x7FFFE7, 280, 282); assert Spot(197, 0xFFFFF2, 344, 345);
    hide *;
    Row12(); Row13(); Row17(); Row21(); Row24();
    Leaf(192, 0x3FFFFF0, 384, 385); Leaf(193, 0x3FFFFF0, 384, 386); Leaf(194, 0xFFFF5, 206, 208);
    Leaf(195, 0x7FFF8, 193, 195); Leaf(196, 0x3FFFF3, 280, 282); Leaf(197, 0x7FFFF9, 344, 345);
  }

  lemma Octets33(c: Byte)
    requires 198 <= c < 204
    ensures Decodes(c)
  {
    hide At, Decodes, Code, Huffman.Follow, Huffman.BitsBehindOne, QPACK;
    assert Spot(198, 0x7FFFE8, 285, 286); assert Spot(199, 0x3FFFFEC, 374, 375);
    assert Spot(200, 0x7FFFFE2, 387, 388); assert Spot(201, 0x7FFFFE3, 387, 389);
    assert Spot(202, 0x7FFFFE4, 391, 392); assert Spot(203, 0xFFFFFDE, 411, 412);
    hide *;
    Row18(); Row23(); Row24(); Row25();
    Leaf(198, 0x3FFFF4, 285, 286); Leaf(199, 0x1FFFFF6, 374, 375); Leaf(200, 0x3FFFFF1, 387, 388);
    Leaf(201, 0x3FFFFF1, 387, 389); Leaf(202, 0x3FFFFF2, 391, 392); Leaf(203, 0x7FFFFEF, 411, 412);
  }

  lemma Octets34(c: Byte)
    requires 204 <= c < 210
    ensures Decodes(c)
  {
    hide At, Decodes, Code, Huffman.Follow, Huffman.BitsBehindOne, QPACK;
    assert Spot(204, 0xFFFFFDF, 411, 413); assert Spot(205, 0x7FFFFE5, 391, 393);
    assert Spot(206, 0x1FFFFF1, 363, 365); assert Spot(207, 0x3FFFFED, 374, 376);
    assert Spot(208, 0xFFFF2, 196, 197); assert Spot(209, 0x3FFFE3, 227, 229);
    hide *;
    Row12(); Row14(); Row22(); Row23(); Row24(); Row25();
    Leaf(204, 0x7FFFFEF, 411, 413); Leaf(205, 0x3FFFFF2, 391, 393); Leaf(206, 0xFFFFF8, 363, 365);
    Leaf(207, 0x1FFFFF6, 374, 376); Leaf(208, 0x7FFF9, 196, 197); Leaf(209, 0x1FFFF1, 227, 229);
  }

  lemma Octets35(c: Byte)
    requires 210 <= c < 216
    ensures Decodes(c)
  {
    hide At, Decodes, Code, Huffman.Follow, Huffman.BitsBehindOne, QPACK;
    assert Spot(210, 0x7FFFFE6, 394, 395); assert Spot(211, 0xFFFFFE0, 418, 419);
    assert Spot(212, 0xFFFFFE1, 418, 420); assert Spot(213, 0x7FFFFE7, 394, 396);
    assert Spot(214, 0xFFFFFE2, 421, 422); assert Spot(215, 0x1FFFFF2, 366, 367);
    hide *;
    Row23(); Row24(); Row26();
    Leaf(210, 0x3FFFFF3, 394, 395); Leaf(211, 0x7FFFFF0, 418, 419); Leaf(212, 0x7FFFFF0, 418, 420);
    Leaf(213, 0x3FFFFF3, 394, 396); Leaf(214, 0x7FFFFF1, 421, 422); Leaf(215, 0xFFFFF9, 366, 367);
  }

  lemma Octets36(c: Byte)
    requires 216 <= c < 222
    ensures Decodes(c)
  {
    hide At, Decodes, Code, Huffman.Follow, Huffman.BitsBehindOne, QPACK;
    assert Spot(216, 0x3FFFE4, 231, 232); assert Spot(217, 0x3FFFE5, 231, 233);
    assert Spot(218, 0x7FFFFE8, 399, 400); assert Spot(219, 0x7FFFFE9, 399, 401);
    assert Spot(220, 0x1FFFFFFD, 501, 503); assert Spot(221, 0xFFFFFE3, 421, 423);
    hide *;
    Row14(); Row25(); Row26(); Row31();
    Leaf(216, 0x1FFFF2, 231, 232); Leaf(217, 0x1FFFF2, 231, 233); Leaf(218, 0x3FFFFF4, 399, 400);
    Leaf(219, 0x3FFFFF4, 399, 401); Leaf(220, 0xFFFFFFE, 501, 503); Leaf(221, 0x7FFFFF1, 421, 423);
  }

  lemma Octets37(c: Byte)
    requires 222 <= c < 228
    ensures Decodes(c)
  {
    hide At, Decodes, Code, Huffman.Follow, Huffman.BitsBehindOne, QPACK;
    assert Spot(222, 0xFFFFFE4, 425, 426); assert Spot(223, 0xFFFFFE5, 425, 427);
    assert Spot(224, 0x1FFFEC, 210, 211); assert Spot(225, 0x1FFFFF3, 366, 368);
    assert Spot(226, 0x1FFFED, 210, 212); assert Spot(227, 0x3FFFE6, 234, 235);
    hide *;
    Row13(); Row14(); Row23(); Row26();
    Leaf(222, 0x7FFFFF2, 425, 426); Leaf(223, 0x7FFFFF2, 425, 427); Leaf(224, 0xFFFF6, 210, 211);
    Leaf(225, 0xFFFFF9, 366, 368); Leaf(226, 0xFFFF6, 210, 212); Leaf(227, 0x1FFFF3, 234, 235);
  }

  lemma Octets38(c: Byte)
    requires 228 <= c < 234
    ensures Decodes(c)
  {
    hide At, Decodes, Code, Huffman.Follow, Huffman.BitsBehindOne, QPACK;
    assert Spot(228, 0x7FFFE9, 285, 287); assert Spot(229, 0x3FFFE7, 234, 236);
    assert Spot(230, 0x3FFFE8, 239, 240); assert Spot(231, 0xFFFFF3, 344, 346);
    assert Spot(232, 0x7FFFEA, 288, 289); assert Spot(233, 0x7FFFEB, 288, 290);
    hide *;
    Row14(); Row15(); Row18(); Row21();
    Leaf(228, 0x3FFFF4, 285, 287); Leaf(229, 0x1FFFF3, 234, 236); Leaf(230, 0x1FFFF4, 239, 240);
    Leaf(231, 0x7FFFF9, 344, 346); Leaf(232, 0x3FFFF5, 288, 289); Leaf(233, 0x3FFFF5, 288, 290);
  }

  lemma Octets39(c: Byte)
    requires 234 <= c < 240
    ensures Decodes(c)
  {
    hide At, Decodes, Code, Huffman.Follow, Huffman.BitsBehindOne, QPACK;
    assert Spot(234, 0x3FFFFEE, 377, 378); assert Spot(235, 0x3FFFFEF, 377, 379);
    assert Spot(236, 0x1FFFFF4, 370, 371); assert Spot(237, 0x1FFFFF5, 370, 372);
    assert Spot(238, 0x7FFFFEA, 402, 403); assert Spot(239, 0xFFFFF4, 348, 349);
    hide *;
    Row21(); Row23(); Row25();
    Leaf(234, 0x1FFFFF7, 377, 378); Leaf(235, 0x1FFFFF7, 377, 379); Leaf(236, 0xFFFFFA, 370, 371);
    Leaf(237, 0xFFFFFA, 370, 372); Leaf(238, 0x3FFFFF5, 402, 403); Leaf(239, 0x7FFFFA, 348, 349);
  }

  lemma Octets40(c: Byte)
    requires 240 <= c < 246
    ensures Decodes(c)
  {
    hide At, Decodes, Code, Huffman.Follow, Huffman.BitsBehindOne, QPACK;
    assert Spot(240, 0x7FFFFEB, 402, 404); assert Spot(241, 0xFFFFFE6, 428, 429);
    assert Spot(242, 0x7FFFFEC, 406, 407); assert Spot(243, 0x7FFFFED, 406, 408);
    assert Spot(244, 0xFFFFFE7, 428, 430); assert Spot(245, 0xFFFFFE8, 433, 434);
    hide *;
    Row25(); Row26(); Row27();
    Leaf(240, 0x3FFFFF5, 402, 404); Leaf(241, 0x7FFFFF3, 428, 429); Leaf(242, 0x3FFFFF6, 406, 407);
    Leaf(243, 0x3FFFFF6, 406, 408); Leaf(244, 0x7FFFFF3, 428, 430); Leaf(245, 0x7FFFFF4, 433, 434);
  }

  lemma Octets41(c: Byte)
    requires 246 <= c < 252
    ensures Decodes(c)
  {
    hide At, Decodes, Code, Huffman.Follow, Huffman.BitsBehindOne, QPACK;
    assert Spot(246, 0xFFFFFE9, 433, 435); assert Spot(247, 0xFFFFFEA, 436, 437);
    assert Spot(248, 0xFFFFFEB, 436, 438); assert Spot(249, 0x1FFFFFFE, 504, 505);
    assert Spot(250, 0xFFFFFEC, 440, 441); assert Spot(251, 0xFFFFFED, 440, 442);
    hide *;
    Row27(); Row31();
    Leaf(246, 0x7FFFFF4, 433, 435); Leaf(247, 0x7FFFFF5, 436, 437); Leaf(248, 0x7FFFFF5, 436, 438);
    Leaf(249, 0xFFFFFFF, 504, 505); Leaf(250, 0x7FFFFF6, 440, 441); Leaf(251, 0x7FFFFF6, 440, 442);
  }

  lemma Octets42(c: Byte)
    requires 252 <= c < 256
    ensures Decodes(c)
  {
    hide At, Decodes, Code, Huffman.Follow, Huffman.BitsBehindOne, QPACK;
    assert Spot(252, 0xFFFFFEE, 443, 444); assert Spot(253, 0xFFFFFEF, 443, 445);
    assert Spot(254, 0xFFFFFF0, 449, 450); assert Spot(255, 0x7FFFFEE, 409, 410);
    hide *;
    Row25(); Row27(); Row28();
    Leaf(252, 0x7FFFFF7, 443, 444); Leaf(253, 0x7FFFFF7, 443, 445); Leaf(254, 0x7FFFFF8, 449, 450);
    Leaf(255, 0x3FFFFF7, 409, 410);
  }

  /** The code of every octet leads to it. */
  lemma CodeLeads(c: Byte)
    ensures Decodes(c)
  {
    hide *;
    if c < 6 { Octets0(c); } else if c < 12 { Octets1(c); } else if c < 18 { Octets2(c); } else
    if c < 24 { Octets3(c); } else if c < 30 { Octets4(c); } else if c < 36 { Octets5(c); } else
    if c < 42 { Octets6(c); } else if c < 48 { Octets7(c); } else if c < 54 { Octets8(c); } else
    if c < 60 { Octets9(c); } else if c < 66 { Octets10(c); } else if c < 72 { Octets11(c); } else
    if c < 78 { Octets12(c); } else if c < 84 { Octets13(c); } else if c < 90 { Octets14(c); } else
    if c < 96 { Octets15(c); } else if c < 102 { Octets16(c); } else if c < 108 { Octets17(c); } else
    if c < 114 { Octets18(c); } else if c < 120 { Octets19(c); } else if c < 126 { Octets20(c); } else
    if c < 132 { Octets21(c); } else if c < 138 { Octets22(c); } else if c < 144 { Octets23(c); } else
    if c < 150 { Octets24(c); } else if c < 156 { Octets25(c); } else if c < 162 { Octets26(c); } else
    if c < 168 { Octets27(c); } else if c < 174 { Octets28(c); } else if c < 180 { Octets29(c); } else
    if c < 186 { Octets30(c); } else if c < 192 { Octets31(c); } else if c < 198 { Octets32(c); } else
    if c < 204 { Octets33(c); } else if c < 210 { Octets34(c); } else if c < 216 { Octets35(c); } else
    if c < 222 { Octets36(c); } else if c < 228 { Octets37(c); } else if c < 234 { Octets38(c); } else
    if c < 240 { Octets39(c); } else if c < 246 { Octets40(c); } else if c < 252 { Octets41(c); } else
    { Octets42(c); }
  }

  // ------------------------------------------------------------- the result

  lemma {:induction false} CodesAreCoded(s: Bytes)
    ensures Huffman.Coded(QPACK, Codes(s), s)
    decreases |s|
  {
    hide Huffman.Leads, Code;
    if s != [] {
      CodesAreCoded(s[1..]);
      CodeLeads(s[0]);
      assert forall i | 0 < i < |s| :: Codes(s)[i] == Codes(s[1..])[i - 1] && s[i] == s[1..][i - 1];
    }
  }

  lemma SevenOnes()
    ensures Huffman.Inside(QPACK, Huffman.Ones(7))
  {
    assert Internal(148);
    hide Internal, Value, Number;
    Row9();
    hide Huffman.BitsBehindOne;
    Huffman.SevenOnesNumber();
  }

  /** The decoder with the tables of the source decodes the Huffman form of Appendix B of
      RFC 7541, for every octet string that fits; of a longer one it gives what fits. */
  lemma DecodesAppendixB(s: Bytes, room: nat)
    ensures Huffman.Decode(QPACK, Encode(s), room) == Huffman.Decoded(if |s| <= room then s else s[..room], true)
  {
    CodesAreCoded(s);
    SevenOnes();
    hide Huffman.Coded, Codes, Internal, Value;
    Huffman.DecodeInvertsEncode(QPACK, Codes(s), s, room);
  }

  /** Whole codes and then part of one: the octets of the whole codes, and an error unless
      the part is all ones. */
  lemma DecodesTruncated(s: Bytes, tail: Huffman.Bits, room: nat)
    requires |s| <= room && (|Huffman.Concat(Codes(s))| + |tail|) % 8 == 0
    requires Huffman.Inside(QPACK, tail)
    ensures Huffman.Decode(QPACK, Huffman.Pack(Huffman.Concat(Codes(s)) + tail), room)
         == Huffman.Decoded(s, Huffman.AllOnes(tail))
  {
    CodesAreCoded(s);
    hide Huffman.Coded, Codes, Internal, Value;
    Huffman.DecodeTruncated(QPACK, Codes(s), s, tail, room);
  }

  lemma LastIndex()
    ensures Huffman.Leaves(QPACK, Huffman.Ones(29))
  {
    assert Internal(510) && Value(510) == 2;
    hide Internal, Value, Number;
    Row31();
    hide Huffman.BitsBehindOne;
    Huffman.TwentyNineOnesNumber();
  }

  /** Whole codes and then EOS, thirty ones, which the decoder takes for the end of the string: the
      octets of the codes, success, and nothing of what follows. */
  lemma StopsAtEos(s: Bytes, tail: Huffman.Bits, room: nat)
    requires |s| <= room && (|Huffman.Concat(Codes(s))| + 30 + |tail|) % 8 == 0
    ensures Huffman.Decode(QPACK, Huffman.Pack(Huffman.Concat(Codes(s)) + (Huffman.Ones(30) + tail)), room)
         == Huffman.Decoded(s, true)
  {
    hide *;
    CodesAreCoded(s);
    LastIndex();
    Huffman.OneMoreOne(tail);
    Huffman.DecodeLeaves(QPACK, Codes(s), s, Huffman.Ones(29), tail, room);
  }
}
