/** Decimal numbers as ASCII digits. */
module Numerals {
  import opened ByteLines

  /** The interpreter refuses to convert longer digit strings. */
  const MAX_DIGITS := 4300

  predicate Digit(b: Byte) {
    48 <= b <= 57
  }

  predicate Digits(s: Bytes) {
    s != [] && forall i :: 0 <= i < |s| ==> Digit(s[i])
  }

  /** The number a string of digits reads as. */
  function Natural(s: Bytes): nat {
    if s == [] then 0
    else
      var last := s[|s| - 1];
      Natural(s[..|s| - 1]) * 10 + if Digit(last) then last - 48 else 0
  }

  /** The digits of a number, without leading zeros. */
  function Decimal(n: nat): (s: Bytes)
    ensures Digits(s)
  {
    if n < 10 then [48 + n] else Decimal(n / 10) + [48 + n % 10]
  }

  function Zeros(k: nat): (s: Bytes)
    ensures |s| == k && forall i :: 0 <= i < k ==> s[i] == 48
  {
    seq(k, _ => 48)
  }

  /** A number with leading zeros. */
  function Padded(zeros: nat, n: nat): (s: Bytes)
    ensures Digits(s)
  {
    Zeros(zeros) + Decimal(n)
  }

  /** Reading gives back what was written, whatever the leading zeros. */
  lemma {:induction false} NaturalOfPadded(zeros: nat, n: nat)
    ensures Natural(Padded(zeros, n)) == n
  {
    var s := Padded(zeros, n);
    if n < 10 {
      assert s[..|s| - 1] == Zeros(zeros);
      NaturalOfZeros(zeros);
    } else {
      assert s[..|s| - 1] == Padded(zeros, n / 10);
      NaturalOfPadded(zeros, n / 10);
    }
  }

  lemma {:induction false} NaturalOfZeros(zeros: nat)
    ensures Natural(Zeros(zeros)) == 0
  {
    if zeros > 0 {
      assert Zeros(zeros)[..zeros - 1] == Zeros(zeros - 1);
      NaturalOfZeros(zeros - 1);
    }
  }

  /** Every string of digits is its number with some leading zeros. */
  lemma {:induction false} DigitsArePadded(s: Bytes) returns (zeros: nat)
    requires Digits(s)
    ensures s == Padded(zeros, Natural(s))
  {
    var front, last := s[..|s| - 1], s[|s| - 1];
    assert s == front + [last];
    if front == [] {
      zeros := 0;
    } else {
      zeros := DigitsArePadded(front);
      if Natural(front) == 0 {
        zeros := zeros + 1;
        assert front == Zeros(zeros);
      }
    }
  }
}
