/** `padNumber`: a number's decimal text, left-padded with '0' to a given
    length (two by default), as the countdown's hours, minutes and seconds
    are shown. Numbers are integers here; `String` is JavaScript's decimal
    rendering of an integer. */
module TimeFormat {

  function Max(a: int, b: int): int
  {
    if a >= b then a else b
  }

  predicate IsDigit(c: char)
  {
    '0' <= c <= '9'
  }

  predicate AllDigits(s: string)
  {
    forall i :: 0 <= i < |s| ==> IsDigit(s[i])
  }

  /** The character of a decimal digit. */
  function DigitChar(d: nat): (c: char)
    requires d < 10
    ensures IsDigit(c) && DigitValue(c) == d
  {
    ('0' as int + d) as char
  }

  /** The value of a decimal digit character. */
  function DigitValue(c: char): (d: nat)
    requires IsDigit(c)
    ensures d < 10
  {
    c as int - '0' as int
  }

  /** The decimal text of a natural number, most significant digit first,
      with no leading zero except for 0 itself. */
  function NatToString(n: nat): (s: string)
    ensures AllDigits(s)
    ensures 1 <= |s|
    ensures |s| == 1 <==> n < 10
    ensures s[0] == '0' <==> n == 0
  {
    if n < 10 then [DigitChar(n)] else NatToString(n / 10) + [DigitChar(n % 10)]
  }

  /** `String(num)` for an integer: a minus sign before the digits of a
      negative number. */
  function IntToString(num: int): (s: string)
    ensures 1 <= |s|
    ensures num >= 0 ==> s == NatToString(num)
    ensures num < 0 ==> s[0] == '-' && s[1..] == NatToString(-num)
  {
    if num < 0 then "-" + NatToString(-num) else NatToString(num)
  }

  /** `s.padStart(length, fill)` with a one-character fill: `s` unchanged
      when it is already `length` long, otherwise fill characters before it
      up to `length`. */
  function PadStart(s: string, length: int, fill: char): (r: string)
    ensures |r| == Max(|s|, length)
    ensures r[|r| - |s|..] == s
    ensures forall i :: 0 <= i < |r| - |s| ==> r[i] == fill
  {
    if |s| >= length then s else seq(length - |s|, _ => fill) + s
  }

  /** `padNumber(num, length = 2)`. */
  function PadNumber(num: int, length: int := 2): (r: string)
    ensures |r| == Max(|IntToString(num)|, length)
    ensures r[|r| - |IntToString(num)|..] == IntToString(num)
    ensures forall i :: 0 <= i < |r| - |IntToString(num)| ==> r[i] == '0'
    ensures |IntToString(num)| >= length ==> r == IntToString(num)
  {
    PadStart(IntToString(num), length, '0')
  }

  /** The number a string of decimal digits denotes; leading zeros add nothing. */
  function DecimalValue(s: string): nat
    requires AllDigits(s)
  {
    if s == [] then 0 else 10 * DecimalValue(s[..|s| - 1]) + DigitValue(s[|s| - 1])
  }

  /** Reading the decimal text of `n` gives back `n`. */
  lemma {:induction false} DecimalOfNatToString(n: nat)
    ensures DecimalValue(NatToString(n)) == n
  {
    var s := NatToString(n);
    if n >= 10 {
      DecimalOfNatToString(n / 10);
      assert s[..|s| - 1] == NatToString(n / 10);
    }
  }

  /** Leading zeros do not change the number a digit string denotes. */
  lemma {:induction false} DecimalIgnoresLeadingZeros(z: string, s: string)
    requires forall i :: 0 <= i < |z| ==> z[i] == '0'
    requires AllDigits(s)
    ensures AllDigits(z + s)
    ensures DecimalValue(z + s) == DecimalValue(s)
    decreases |s|
  {
    var zs := z + s;
    assert AllDigits(zs) by {
      forall i | 0 <= i < |zs| ensures IsDigit(zs[i]) {
        if i < |z| { assert zs[i] == z[i]; } else { assert zs[i] == s[i - |z|]; }
      }
    }
    if s == [] {
      assert zs == z;
      ZerosDenoteZero(z);
    } else {
      assert zs[..|zs| - 1] == z + s[..|s| - 1];
      DecimalIgnoresLeadingZeros(z, s[..|s| - 1]);
    }
  }

  /** A string of zeros denotes 0. */
  lemma {:induction false} ZerosDenoteZero(z: string)
    requires forall i :: 0 <= i < |z| ==> z[i] == '0'
    ensures AllDigits(z) && DecimalValue(z) == 0
  {
    if z != [] {
      ZerosDenoteZero(z[..|z| - 1]);
    }
  }

  /** Round trip: the padded text of a non-negative number still reads back
      as that number, whatever the length asked for. */
  lemma PadNumberRoundTrip(n: nat, length: int)
    ensures AllDigits(PadNumber(n, length))
    ensures DecimalValue(PadNumber(n, length)) == n
  {
    var s := NatToString(n);
    var r := PadNumber(n, length);
    var z := r[..|r| - |s|];
    assert r == z + s;
    DecimalIgnoresLeadingZeros(z, s);
    DecimalOfNatToString(n);
  }

  /** With the default length, a single digit gets one leading zero. */
  lemma PadSingleDigit(d: nat)
    requires d < 10
    ensures PadNumber(d) == ['0', DigitChar(d)]
  {
  }

  /** With the default length, every number from 0 to 99 (so every minute and
      second of a countdown) is shown as exactly two digits. */
  lemma PadTwoDigits(n: int)
    requires 0 <= n <= 99
    ensures |PadNumber(n)| == 2 && AllDigits(PadNumber(n))
  {
  }
}
