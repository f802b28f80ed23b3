/** Status values: the parser reads the decimal numeral of a number, and nothing else. */
module Status {
  import opened Bytes
  import opened Qpack

  /** The decimal numeral of a number, in ASCII. */
  function Decimal(n: nat): Bytes {
    if n < 10 then [0x30 + n] else Decimal(n / 10) + [0x30 + n % 10]
  }

  predicate AllDigits(s: Bytes) {
    forall i | 0 <= i < |s| :: 0x30 <= s[i] <= 0x39
  }

  function Digit(b: Byte): int {
    b as int - 0x30
  }

  function Power10(n: nat): nat {
    if n == 0 then 1 else 10 * Power10(n - 1)
  }

  /** The value of digits by their places, from the first digit on. */
  function Places(s: Bytes): int {
    if s == [] then 0 else Digit(s[0]) * Power10(|s| - 1) + Places(s[1..])
  }

  lemma {:induction false} PlacesSnoc(s: Bytes, d: Byte)
    ensures Places(s + [d]) == 10 * Places(s) + Digit(d)
  {
    if s == [] {
      assert s + [d] == [d] && [d][1..] == [];
      assert Power10(0) == 1;
    } else {
      PlacesSnoc(s[1..], d);
      assert (s + [d])[1..] == s[1..] + [d];
      assert Power10(|s|) == 10 * Power10(|s| - 1);
      var x := Digit(s[0]);
      assert x * (10 * Power10(|s| - 1)) == 10 * (x * Power10(|s| - 1));
    }
  }

  lemma AllDigitsSnoc(s: Bytes)
    requires s != []
    ensures AllDigits(s) <==> AllDigits(s[..|s| - 1]) && 0x30 <= s[|s| - 1] <= 0x39
  {
    assert forall i | 0 <= i < |s| - 1 :: s[..|s| - 1][i] == s[i];
  }

  /** The status is the number of the digits if all octets are digits, otherwise -1. */
  lemma {:induction false} StatusIsNumber(s: Bytes)
    ensures StatusValue(s) == if AllDigits(s) then Places(s) else -1
    ensures AllDigits(s) ==> Places(s) >= 0
  {
    if s != [] {
      var head, d := s[..|s| - 1], s[|s| - 1];
      StatusIsNumber(head);
      AllDigitsSnoc(s);
      PlacesSnoc(head, d);
      assert s == head + [d];
    }
  }

  /** Reading inverts writing. */
  lemma {:induction false} StatusOfDecimal(n: nat)
    ensures StatusValue(Decimal(n)) == n
  {
    var s := Decimal(n);
    if n < 10 {
      assert s[..0] == [];
    } else {
      StatusOfDecimal(n / 10);
      assert s[..|s| - 1] == Decimal(n / 10);
    }
  }

  /** The status of a value of three octets. */
  function Three(a: Byte, b: Byte, c: Byte): int {
    if 0x30 <= a <= 0x39 && 0x30 <= b <= 0x39 && 0x30 <= c <= 0x39
    then 100 * Digit(a) + 10 * Digit(b) + Digit(c)
    else -1
  }

  lemma StatusOfThree(s: Bytes)
    requires |s| == 3
    ensures StatusValue(s) == Three(s[0], s[1], s[2])
  {
    StatusIsNumber(s);
    var s1, s2 := s[1..], s[2..];
    assert s1[1..] == s2 && s2[1..] == s[3..];
    assert Places(s[3..]) == 0 && Places(s2) == Digit(s[2]) * Power10(0);
    assert Places(s1) == Digit(s[1]) * Power10(1) + Places(s2);
    assert Power10(1) == 10 && Power10(2) == 100;
  }
}
