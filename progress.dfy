/** Progress reporting: the percent computed before each chunk
    (`(i*100)/size`, src/main.cpp:151 and 193) and the five bytes `status`
    writes for it (src/main.cpp:126-135). */
module Progress {
  import opened Common
  import opened Decimal

  /** Carriage return, which rewinds the terminal line before each update. */
  const CarriageReturn: byte := 0x0D

  /** ASCII `%`. */
  const PercentSign: byte := 0x25

  /** The quotient of `a` by `b`, by repeated subtraction. */
  function Quot(a: nat, b: nat): nat
    requires b > 0
    decreases a
  {
    if a < b then 0 else 1 + Quot(a - b, b)
  }

  /** `Quot` is the quotient of division with remainder. */
  lemma {:induction false} QuotSpec(a: nat, b: nat)
    requires b > 0
    ensures b * Quot(a, b) <= a < b * Quot(a, b) + b
    decreases a
  {
    if a >= b {
      QuotSpec(a - b, b);
      assert b * Quot(a, b) == b * Quot(a - b, b) + b;
    }
  }

  lemma {:induction false} QuotBelow(a: nat, b: nat, c: nat)
    requires b > 0 && a < b * c
    ensures Quot(a, b) < c
    decreases a
  {
    if a >= b {
      assert b * (c - 1) == b * c - b;
      QuotBelow(a - b, b, c - 1);
    }
  }

  lemma {:induction false} QuotMonotone(a: nat, a': nat, b: nat)
    requires b > 0 && a <= a'
    ensures Quot(a, b) <= Quot(a', b)
    decreases a
  {
    if a >= b {
      QuotMonotone(a - b, a' - b, b);
    }
  }

  /** The percent reported before the chunk at offset `done` of a `total`-byte
      target, `(done*100)/total`. The loop only reports while `done < total`. */
  function Percent(done: nat, total: nat): (p: nat)
    requires done < total
    ensures p < 100
  {
    QuotBelow(done * 100, total, 100);
    Quot(done * 100, total)
  }

  /** The percent is C's integer division of `done*100` by `total`. */
  lemma PercentIsDivision(done: nat, total: nat)
    requires done < total
    ensures Percent(done, total) == done * 100 / total
  {
    QuotSpec(done * 100, total);
    DivModUnique(done * 100, total, Quot(done * 100, total), done * 100 - total * Quot(done * 100, total));
  }

  lemma LessAfterScaling(d: int, a: int, b: int)
    requires d > 0 && d * a < d * b
    ensures a < b
  {
  }

  /** Division with remainder has one answer. */
  lemma DivModUnique(n: nat, d: nat, k: nat, r: nat)
    requires d > 0 && r < d && n == d * k + r
    ensures n / d == k && n % d == r
  {
    var q, s := n / d, n % d;
    assert d * (k - q) == s - r;
    assert d * (q - k) == r - s;
    LessAfterScaling(d, k - q, 1);
    LessAfterScaling(d, q - k, 1);
  }

  /** The three low decimal digits of `p` are those of `p % 1000`. */
  lemma LowDigits(p: nat)
    ensures (p / 100) % 10 == (p % 1000) / 100
    ensures (p / 10) % 10 == ((p % 1000) / 10) % 10
    ensures p % 10 == (p % 1000) % 10
  {
    var a, q := p / 1000, p % 1000;
    assert p == 1000 * a + q;
    DivModUnique(q, 100, q / 100, q % 100);
    DivModUnique(p, 100, 10 * a + q / 100, q % 100);
    DivModUnique(10 * a + q / 100, 10, a, q / 100);
    DivModUnique(q, 10, q / 10, q % 10);
    DivModUnique(p, 10, 100 * a + q / 10, q % 10);
    DivModUnique(q / 10, 10, q / 100, (q / 10) % 10);
    DivModUnique(100 * a + q / 10, 10, 10 * a + q / 100, (q / 10) % 10);
  }

  /** A number below 1000, padded to three digits. */
  lemma ThreeDigits(q: nat)
    requires q < 1000
    ensures PadDigits(q, 3) == [Zero + q / 100, Zero + (q / 10) % 10, Zero + q % 10]
  {
    var d := Digits(q);
    if q < 10 {
      assert d == [Zero + q];
    } else if q < 100 {
      assert Digits(q / 10) == [Zero + q / 10];
      assert d == [Zero + q / 10, Zero + q % 10];
    } else {
      DivModUnique(q / 10, 10, q / 100, (q / 10) % 10);
      assert Digits(q / 10) == [Zero + q / 100, Zero + (q / 10) % 10];
      assert d == [Zero + q / 100, Zero + (q / 10) % 10, Zero + q % 10];
    }
  }

  /** A later offset never reports a smaller percent. */
  lemma PercentMonotone(a: nat, b: nat, total: nat)
    requires a <= b < total
    ensures Percent(a, total) <= Percent(b, total)
  {
    QuotMonotone(a * 100, b * 100, total);
  }

  /** The five bytes of one progress update: carriage return, the hundreds,
      tens and units digits of the percent (each through C's `/` and `%`),
      and `%`. */
  function ProgressLine(percent: int): (s: seq<byte>)
    ensures |s| == 5
  {
    [CarriageReturn,
     Zero + CRem(CDiv(percent, 100), 10),
     Zero + CRem(CDiv(percent, 10), 10),
     Zero + CRem(percent, 10),
     PercentSign]
  }

  /** `n` in decimal, padded on the left with '0' to at least `width` digits. */
  function PadDigits(n: nat, width: nat): (s: seq<byte>)
    ensures AllDigits(s)
  {
    var d := Digits(n);
    if |d| >= width then d else seq(width - |d|, _ => Zero) + d
  }

  /** `status`: fills a five-slot character array and emits it. */
  method Status(percent: int) returns (line: seq<byte>)
    ensures line == ProgressLine(percent)
    ensures |line| == 5 && line[0] == CarriageReturn && line[4] == PercentSign
    ensures 0 <= percent <= 100 ==> line[1..4] == PadDigits(percent, 3)
  {
    if percent >= 0 {
      ProgressLineShowsPercent(percent);
    }
    var status := new byte[5];
    status[0] := CarriageReturn;
    status[1] := Zero + CRem(CDiv(percent, 100), 10);
    status[2] := Zero + CRem(CDiv(percent, 10), 10);
    status[3] := Zero + CRem(percent, 10);
    status[4] := PercentSign;
    line := status[..];
  }

  /** For a non-negative percent C's `/` and `%` are the mathematical ones. */
  lemma ProgressLineNonNegative(p: int)
    requires p >= 0
    ensures ProgressLine(p) == [CarriageReturn, Zero + (p / 100) % 10, Zero + (p / 10) % 10, Zero + p % 10, PercentSign]
  {
    var h, t := CDiv(p, 100), CDiv(p, 10);
    assert CRem(h, 10) == (p / 100) % 10;
    assert CRem(t, 10) == (p / 10) % 10;
    assert CRem(p, 10) == p % 10;
  }

  /** For a non-negative percent the update shows it modulo 1000 as a
      three-digit, zero-padded decimal. */
  lemma ProgressLinePadded(p: int)
    requires p >= 0
    ensures ProgressLine(p) == [CarriageReturn] + PadDigits(p % 1000, 3) + [PercentSign]
  {
    ProgressLineNonNegative(p);
    LowDigits(p);
    ThreeDigits(p % 1000);
  }

  /** The three digit bytes of an update read back as the percent modulo
      1000; for 0..100 they are the percent itself, zero-padded. */
  lemma ProgressLineShowsPercent(p: int)
    requires p >= 0
    ensures p <= 100 ==> ProgressLine(p)[1..4] == PadDigits(p, 3)
    ensures Value(ProgressLine(p)[1..4]) == p % 1000
  {
    var q := p % 1000;
    var pad := PadDigits(q, 3);
    ProgressLinePadded(p);
    ThreeDigits(q);
    assert ProgressLine(p)[1..4] == pad;
    if p <= 100 {
      DivModUnique(p, 1000, 0, p);
    }
    DigitsRoundTrip(q);
    LeadingZerosKeepValue(q, 3);
  }

  lemma {:induction false} ZerosThenDigits(k: nat, s: seq<byte>)
    requires AllDigits(s)
    ensures AllDigits(seq(k, _ => Zero) + s)
    ensures Value(seq(k, _ => Zero) + s) == Value(s)
    decreases |s|
  {
    var z: seq<byte> := seq(k, _ => Zero);
    if s == [] {
      assert z + s == z;
      AllZerosValue(k);
    } else {
      var init := s[..|s| - 1];
      ZerosThenDigits(k, init);
      assert (z + s)[..|z + s| - 1] == z + init;
    }
  }

  lemma {:induction false} AllZerosValue(k: nat)
    ensures AllDigits(seq(k, _ => Zero))
    ensures Value(seq(k, _ => Zero)) == 0
  {
    if k > 0 {
      AllZerosValue(k - 1);
      assert seq(k, _ => Zero)[..k - 1] == seq(k - 1, _ => Zero);
    }
  }

  lemma LeadingZerosKeepValue(n: nat, width: nat)
    ensures Value(PadDigits(n, width)) == Value(Digits(n))
  {
    var d := Digits(n);
    if |d| < width {
      ZerosThenDigits(width - |d|, d);
    }
  }

  /** What a verifier run reports through `status`: a value in 0..99 no larger
      than the next one, repeated, and a last value that is exactly 100 when
      the run passes and below 100 when it fails mid-scan. */
  predicate ProgressOk(ps: seq<int>, passed: bool)
    decreases |ps|
  {
    if |ps| == 0 then false
    else if |ps| == 1 then (if passed then ps[0] == 100 else 0 <= ps[0] < 100)
    else 0 <= ps[0] < 100 && ps[0] <= ps[1] && ProgressOk(ps[1..], passed)
  }

  /** The same, stated over the whole sequence: at least one value, never
      decreasing, every value before the last in 0..99, and the last one
      100 exactly on a pass. */
  lemma {:induction false} ProgressOkMeans(ps: seq<int>, passed: bool)
    requires ProgressOk(ps, passed)
    ensures |ps| >= 1
    ensures forall j, k :: 0 <= j <= k < |ps| ==> ps[j] <= ps[k]
    ensures forall j :: 0 <= j < |ps| - 1 ==> 0 <= ps[j] < 100
    ensures if passed then ps[|ps| - 1] == 100 else 0 <= ps[|ps| - 1] < 100
    decreases |ps|
  {
    if |ps| > 1 {
      var tail := ps[1..];
      ProgressOkMeans(tail, passed);
      forall j, k | 0 <= j <= k < |ps| ensures ps[j] <= ps[k] {
        if 0 < j {
          assert ps[j] == tail[j - 1] && ps[k] == tail[k - 1];
        } else if 0 < k {
          assert ps[1] == tail[0] && ps[k] == tail[k - 1];
        }
      }
      forall j | 0 <= j < |ps| - 1 ensures 0 <= ps[j] < 100 {
        if 0 < j {
          assert ps[j] == tail[j - 1];
        }
      }
      assert ps[|ps| - 1] == tail[|tail| - 1];
    }
  }

  /** Reporting one more percent in front of a well-formed tail keeps it
      well formed, provided it is no larger than what follows. */
  lemma ProgressPrepend(p: int, rest: seq<int>, passed: bool)
    requires ProgressOk(rest, passed) && 0 <= p < 100 && p <= rest[0]
    ensures ProgressOk([p] + rest, passed)
  {
    assert ([p] + rest)[1..] == rest;
  }

  /** The percent at offset `i`, put before the reports of a scan that
      resumes `n` bytes further, still gives a well-formed series. */
  lemma ProgressResumes(i: nat, n: nat, size: nat, rest: seq<int>, passed: bool)
    requires i < size && n >= 1
    requires ProgressOk(rest, passed) && rest[0] == (if i + n < size then Percent(i + n, size) else 100)
    ensures ProgressOk([Percent(i, size)] + rest, passed)
  {
    if i + n < size {
      PercentMonotone(i, i + n, size);
    }
    ProgressPrepend(Percent(i, size), rest, passed);
  }
}
