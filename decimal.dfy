/** Decimal rendering of the discovered size (`to_string`, src/main.cpp:248-258):
    digits written right-aligned into a fixed buffer whose leading slots stay
    zero bytes, with no terminator. */
module Decimal {
  import opened Common

  /** ASCII code of the digit `0`. */
  const Zero: byte := 0x30

  predicate IsDigit(c: byte) { Zero <= c <= Zero + 9 }

  predicate AllDigits(s: seq<byte>) { forall k :: 0 <= k < |s| ==> IsDigit(s[k]) }

  /** The decimal digits of `n` in ASCII, most significant first; 0 is "0". */
  function Digits(n: nat): (s: seq<byte>)
    ensures 1 <= |s| && AllDigits(s)
    ensures n >= 10 ==> s[0] != Zero
    decreases n
  {
    if n < 10 then [Zero + n] else Digits(n / 10) + [Zero + n % 10]
  }

  /** The number an ASCII digit string denotes (the reading side of `Digits`). */
  function Value(s: seq<byte>): nat
    requires AllDigits(s)
  {
    if s == [] then 0 else 10 * Value(s[..|s| - 1]) + (s[|s| - 1] - Zero)
  }

  function Pow10(k: nat): (p: nat)
    ensures p >= 1
  {
    if k == 0 then 1 else 10 * Pow10(k - 1)
  }

  /** Reading back the rendered digits gives the number again. */
  lemma {:induction false} DigitsRoundTrip(n: nat)
    ensures Value(Digits(n)) == n
  {
    if n >= 10 {
      DigitsRoundTrip(n / 10);
      var s := Digits(n);
      assert s[..|s| - 1] == Digits(n / 10);
    }
  }

  /** `n` needs at most `k` digits exactly when it is below 10^k. */
  lemma {:induction false} DigitsLength(n: nat, k: nat)
    requires k >= 1
    ensures |Digits(n)| <= k <==> n < Pow10(k)
    decreases n
  {
    if n >= 10 {
      if k == 1 {
        assert |Digits(n)| == |Digits(n / 10)| + 1;
      } else {
        DigitsLength(n / 10, k - 1);
        assert n / 10 < Pow10(k - 1) <==> n < 10 * Pow10(k - 1);
      }
    } else {
      assert Pow10(k) == 10 * Pow10(k - 1);
    }
  }

  /** One pass of the rendering loop on a `x` that is not negative: the digit C's `%`
      yields is the last digit of `x`, and the digits before it are those of
      C's quotient, when that is positive. */
  lemma DigitStep(x: int)
    requires x >= 0
    ensures CDiv(x, 10) >= 0
    ensures CDiv(x, 10) > 0 ==> Digits(x) == Digits(CDiv(x, 10)) + [Zero + CRem(x, 10)]
    ensures CDiv(x, 10) <= 0 ==> Digits(x) == [Zero + CRem(x, 10)]
  {
  }

  /** `to_string`: clears `buff`, then writes the digits of `num` from the last
      slot backwards, one per pass of the do-while loop. It answers -1 when the
      buffer runs out before the digits do, leaving the low-order digits in
      place. For a negative `num`, C's `%` and `/` produce one character below
      '0'+1 and the loop stops after it. */
  method ToString(num: int, buff: array<byte>) returns (r: int)
    modifies buff
    ensures r == 0 || r == -1
    ensures num >= 0 ==> (r == -1 <==> |Digits(num)| > buff.Length)
    ensures num >= 0 && r == 0 ==> buff[..] == Zeros(buff.Length - |Digits(num)|) + Digits(num)
    ensures num >= 0 && r == -1 ==> buff[..] == Digits(num)[|Digits(num)| - buff.Length..]
    ensures num < 0 ==> (r == -1 <==> buff.Length == 0)
    ensures num < 0 && r == 0 ==> buff[..] == Zeros(buff.Length - 1) + [Zero + CRem(num, 10)]
  {
    forall j | 0 <= j < buff.Length {
      buff[j] := 0;
    }
    var size := buff.Length;
    var x := num;
    r := 0;
    while true
      invariant 0 <= size <= buff.Length
      invariant forall j :: 0 <= j < size ==> buff[j] == 0
      invariant num < 0 ==> size == buff.Length && x == num
      invariant num >= 0 && size == buff.Length ==> x == num
      invariant num >= 0 && size < buff.Length ==> x > 0 && Digits(num) == Digits(x) + buff[size..]
      decreases size
    {
      if size == 0 {
        assert buff[..] == buff[size..];
        r := -1;
        break;
      }
      ghost var before := buff[size..];
      size := size - 1;
      buff[size] := Zero + CRem(x, 10);
      assert buff[size..] == [buff[size]] + before;
      if num >= 0 {
        DigitStep(x);
      }
      ghost var last := x;
      x := CDiv(x, 10);
      if x <= 0 {
        assert buff[..] == buff[..size] + buff[size..];
        break;
      }
      assert Digits(last) == Digits(x) + [buff[size]];
    }
  }
}
