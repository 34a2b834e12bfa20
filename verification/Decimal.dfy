/** Zero-padded decimal text and the GS1 modulo-10 check digit. */
module Decimal {

  predicate IsDigit(c: char) {
    '0' <= c <= '9'
  }

  predicate AllDigits(s: string) {
    forall i :: 0 <= i < |s| ==> IsDigit(s[i])
  }

  function Digit(n: nat): (c: char)
    requires n < 10
    ensures IsDigit(c)
  {
    '0' + n as char
  }

  function DigitValue(c: char): (n: nat)
    requires IsDigit(c)
    ensures n < 10 && Digit(n) == c
  {
    (c - '0') as int
  }

  function Text(n: nat): (s: string)
    ensures s != "" && AllDigits(s)
  {
    if n < 10 then [Digit(n)] else Text(n / 10) + [Digit(n % 10)]
  }

  function Zeros(n: nat): (s: string)
    ensures |s| == n && AllDigits(s)
  {
    seq(n, _ => '0')
  }

  /** The text of the format `0{width}d`: padded with zeros up to the width, never cut. */
  function Pad(n: nat, width: nat): (s: string)
    ensures s != "" && |s| >= width && AllDigits(s)
  {
    var t := Text(n);
    if |t| < width then Zeros(width - |t|) + t else t
  }

  function Value(s: string): nat
    requires AllDigits(s)
  {
    if s == "" then 0 else 10 * Value(s[..|s| - 1]) + DigitValue(s[|s| - 1])
  }

  function Pow10(k: nat): (p: nat)
    ensures p > 0
  {
    if k == 0 then 1 else 10 * Pow10(k - 1)
  }

  lemma PadStep(n: nat, width: nat)
    requires width >= 2
    ensures Pad(n, width) == Pad(n / 10, width - 1) + [Digit(n % 10)]
  {
    if n < 10 {
      assert Text(n / 10) == "0";
      assert Zeros(width - 1) == Zeros(width - 2) + "0";
    }
  }

  /** A padded number has exactly the asked width just when it fits into that many digits. */
  lemma {:induction false} PadLength(n: nat, width: nat)
    requires width >= 1
    ensures |Pad(n, width)| == width <==> n < Pow10(width)
  {
    if width == 1 {
      assert Pow10(1) == 10;
    } else {
      PadStep(n, width);
      PadLength(n / 10, width - 1);
      assert Pow10(width) == 10 * Pow10(width - 1);
    }
  }

  lemma {:induction false} TextValue(n: nat)
    ensures Value(Text(n)) == n
  {
    var t := Text(n);
    if n < 10 {
      assert t[..0] == "";
    } else {
      TextValue(n / 10);
      assert t[..|t| - 1] == Text(n / 10);
    }
  }

  lemma {:induction false} ZeroValue(k: nat)
    ensures Value(Zeros(k)) == 0
  {
    if k != 0 {
      assert Zeros(k)[..k - 1] == Zeros(k - 1);
      ZeroValue(k - 1);
    }
  }

  lemma {:induction false} LeadingZeros(k: nat, t: string)
    requires t != "" && AllDigits(t)
    ensures Value(Zeros(k) + t) == Value(t)
  {
    var z := Zeros(k) + t;
    if |t| == 1 {
      assert z[..|z| - 1] == Zeros(k);
      ZeroValue(k);
      assert t[..0] == "";
    } else {
      assert z[..|z| - 1] == Zeros(k) + t[..|t| - 1];
      LeadingZeros(k, t[..|t| - 1]);
    }
  }

  lemma PaddedText(t: string, width: nat)
    requires t != "" && AllDigits(t)
    ensures Value(if |t| < width then Zeros(width - |t|) + t else t) == Value(t)
  {
    if |t| < width {
      LeadingZeros(width - |t|, t);
    }
  }

  /** Padding loses nothing: the number is read back from its padded text. */
  lemma PadValue(n: nat, width: nat)
    ensures Value(Pad(n, width)) == n
  {
    TextValue(n);
    PaddedText(Text(n), width);
  }

  // ----- check digit (GS1 General Specifications, section 7.9.1) -----

  function Times(d: int, weight: nat): int {
    if weight == 3 then 3 * d else d
  }

  /** Weights alternate between 3 and 1 from the right; `weight` is that of the last digit. */
  function WeightedSum(s: string, weight: nat): nat
    requires AllDigits(s)
    requires weight == 1 || weight == 3
  {
    if s == "" then 0
    else Times(DigitValue(s[|s| - 1]), weight) + WeightedSum(s[..|s| - 1], 4 - weight)
  }

  function CheckDigit(s: string): (d: nat)
    requires AllDigits(s)
    ensures d < 10
  {
    (10 - WeightedSum(s, 3) % 10) % 10
  }

  /** A digit string whose last digit is a correct check digit. */
  predicate Checked(s: string) {
    AllDigits(s) && WeightedSum(s, 1) % 10 == 0
  }

  lemma FillsUp(sum: nat, d: nat)
    requires d < 10
    ensures (d + sum) % 10 == 0 <==> d == (10 - sum % 10) % 10
  {
  }

  /** Of the ten ways to extend a digit string, the check digit is the only one that checks. */
  lemma CheckDigitIsUnique(s: string, d: nat)
    requires AllDigits(s) && d < 10
    ensures Checked(s + [Digit(d)]) <==> d == CheckDigit(s)
  {
    var t := s + [Digit(d)];
    assert t[..|t| - 1] == s;
    assert WeightedSum(t, 1) == d + WeightedSum(s, 3);
    FillsUp(WeightedSum(s, 3), d);
  }

  /** The weight of position `i` of `n` when the last position has weight `weight`. */
  function WeightAt(n: nat, i: nat, weight: nat): (w: nat)
    requires i < n
    requires weight == 1 || weight == 3
    ensures w == 1 || w == 3
  {
    if (n - 1 - i) % 2 == 0 then weight else 4 - weight
  }

  lemma FrontReplaced(s: string, i: nat, c: char)
    requires i + 1 < |s|
    ensures s[i := c][..|s| - 1] == s[..|s| - 1][i := c]
  {
  }

  lemma {:induction false} ReplacedSum(s: string, i: nat, c: char, weight: nat)
    requires AllDigits(s) && i < |s| && IsDigit(c)
    requires weight == 1 || weight == 3
    ensures WeightedSum(s[i := c], weight)
         == WeightedSum(s, weight) + Times(DigitValue(c) - DigitValue(s[i]), WeightAt(|s|, i, weight))
  {
    var n := |s| - 1;
    if i == n {
      assert s[i := c][..n] == s[..n];
    } else {
      ReplacedSum(s[..n], i, c, 4 - weight);
      FrontReplaced(s, i, c);
    }
  }

  lemma SingleWeight(sum: int, d: int, w: nat)
    requires sum % 10 == 0 && d != 0 && -9 <= d <= 9
    ensures (sum + Times(d, w)) % 10 != 0
  {
  }

  /** Every single wrong digit is detected. */
  lemma SingleErrorDetected(s: string, i: nat, c: char)
    requires Checked(s) && i < |s| && IsDigit(c) && c != s[i]
    ensures !Checked(s[i := c])
  {
    ReplacedSum(s, i, c, 1);
    SingleWeight(WeightedSum(s, 1), DigitValue(c) - DigitValue(s[i]), WeightAt(|s|, i, 1));
  }

  function Swapped(s: string, i: nat): (t: string)
    requires i + 1 < |s|
  {
    s[i := s[i + 1]][i + 1 := s[i]]
  }

  lemma TwiceModTen(k: int, d: int)
    ensures (10 * k + 2 * d) % 10 != 0 <==> d % 5 != 0
  {
    var q, r := d / 5, d % 5;
    assert 10 * k + 2 * d == 10 * (k + q) + 2 * r;
  }

  lemma OppositeWeights(sum: int, x: int, y: int, v: nat, w: nat)
    requires sum % 10 == 0 && ((v == 1 && w == 3) || (v == 3 && w == 1))
    ensures (sum + Times(y - x, v) + Times(x - y, w)) % 10 != 0 <==> (x - y) % 5 != 0
  {
    if w == 3 {
      TwiceModTen(sum / 10, x - y);
    } else {
      TwiceModTen(sum / 10, y - x);
      assert (y - x) % 5 == 0 <==> (x - y) % 5 == 0;
    }
  }

  /** A swap of two neighbours is detected exactly when they differ by something not divisible by 5. */
  lemma SwapDetected(s: string, i: nat)
    requires Checked(s) && i + 1 < |s|
    ensures !Checked(Swapped(s, i)) <==> (DigitValue(s[i]) - DigitValue(s[i + 1])) % 5 != 0
  {
    var x, y := DigitValue(s[i]), DigitValue(s[i + 1]);
    var v, w := WeightAt(|s|, i, 1), WeightAt(|s|, i + 1, 1);
    ReplacedSum(s, i, s[i + 1], 1);
    ReplacedSum(s[i := s[i + 1]], i + 1, s[i], 1);
    OppositeWeights(WeightedSum(s, 1), x, y, v, w);
  }

  /** What a check digit is for, in one statement. */
  lemma CheckedDetects(s: string, i: nat, c: char)
    requires Checked(s)
    ensures i < |s| && IsDigit(c) && c != s[i] ==> !Checked(s[i := c])
    ensures i + 1 < |s| ==>
              (!Checked(Swapped(s, i)) <==> (DigitValue(s[i]) - DigitValue(s[i + 1])) % 5 != 0)
  {
    if i < |s| && IsDigit(c) && c != s[i] {
      SingleErrorDetected(s, i, c);
    }
    if i + 1 < |s| {
      SwapDetected(s, i);
    }
  }

  // ----- the weights, written out -----

  lemma DigitsAreListed(c: char)
    ensures IsDigit(c) <==> c in "0123456789"
    ensures IsDigit(c) ==> "0123456789"[DigitValue(c)] == c
  {
    if IsDigit(c) {
      assert "0123456789"[DigitValue(c)] == c;
    }
  }

  /** The sum of every second of the first `n` digits from the right, with or without the last. */
  function EverySecond(s: string, n: nat, last: bool): nat
    requires AllDigits(s) && n <= |s|
  {
    if n == 0 then 0 else EverySecond(s, n - 1, !last) + if last then DigitValue(s[n - 1]) else 0
  }

  lemma {:induction false} SumOfSeconds(s: string, n: nat)
    requires AllDigits(s) && n <= |s|
    ensures WeightedSum(s[..n], 1) == EverySecond(s, n, true) + 3 * EverySecond(s, n, false)
    ensures WeightedSum(s[..n], 3) == 3 * EverySecond(s, n, true) + EverySecond(s, n, false)
  {
    if n > 0 {
      SumOfSeconds(s, n - 1);
      assert s[..n][..n - 1] == s[..n - 1];
    }
  }

  /** Counted from the right, the digits after the check digit weigh three and the others one. */
  lemma CheckedByHand(s: string)
    requires AllDigits(s)
    ensures Checked(s) <==> (EverySecond(s, |s|, true) + 3 * EverySecond(s, |s|, false)) % 10 == 0
  {
    SumOfSeconds(s, |s|);
    assert s[..|s|] == s;
  }

  /** Eighteen digits whose check sum is right, position by position. */
  predicate SumsToTens(s: string)
    requires AllDigits(s) && |s| == 18
  {
    (3 * (DigitValue(s[0]) + DigitValue(s[2]) + DigitValue(s[4]) + DigitValue(s[6]) + DigitValue(s[8])
          + DigitValue(s[10]) + DigitValue(s[12]) + DigitValue(s[14]) + DigitValue(s[16]))
     + DigitValue(s[1]) + DigitValue(s[3]) + DigitValue(s[5]) + DigitValue(s[7]) + DigitValue(s[9])
     + DigitValue(s[11]) + DigitValue(s[13]) + DigitValue(s[15]) + DigitValue(s[17])) % 10 == 0
  }

  lemma TwoLess(s: string, n: nat)
    requires AllDigits(s) && 2 <= n <= |s|
    ensures EverySecond(s, n, true) == EverySecond(s, n - 2, true) + DigitValue(s[n - 1])
    ensures EverySecond(s, n, false) == EverySecond(s, n - 2, false) + DigitValue(s[n - 2])
  {
  }

  lemma EighteenSums(s: string, n: nat)
    requires AllDigits(s) && |s| == n == 18
    ensures EverySecond(s, n, true) ==
            DigitValue(s[1]) + DigitValue(s[3]) + DigitValue(s[5]) + DigitValue(s[7]) + DigitValue(s[9])
            + DigitValue(s[11]) + DigitValue(s[13]) + DigitValue(s[15]) + DigitValue(s[17])
    ensures EverySecond(s, n, false) ==
            DigitValue(s[0]) + DigitValue(s[2]) + DigitValue(s[4]) + DigitValue(s[6]) + DigitValue(s[8])
            + DigitValue(s[10]) + DigitValue(s[12]) + DigitValue(s[14]) + DigitValue(s[16])
  {
    TwoLess(s, n);
    TwoLess(s, n - 2);
    TwoLess(s, n - 4);
    TwoLess(s, n - 6);
    TwoLess(s, n - 8);
    TwoLess(s, n - 10);
    TwoLess(s, n - 12);
    TwoLess(s, n - 14);
    TwoLess(s, n - 16);
    assert EverySecond(s, n - 18, true) == EverySecond(s, n - 18, false) == 0;
  }

  /** For eighteen digits the check sum is three times those at even positions plus the others. */
  lemma EighteenByHand(s: string)
    requires AllDigits(s) && |s| == 18
    ensures Checked(s) <==> SumsToTens(s)
  {
    CheckedByHand(s);
    EighteenSums(s, |s|);
  }

  lemma TextStep(n: nat, d: nat, t: string)
    requires n >= 1 && d < 10 && Text(n) == t
    ensures Text(10 * n + d) == t + [Digit(d)]
  {
    assert (10 * n + d) / 10 == n && (10 * n + d) % 10 == d;
  }

  /** Decimal text, in an example. */
  lemma DecimalExample()
    ensures Text(1_204) == "1204" && Value("1204") == 1_204
    ensures Pad(1_204, 6) == "001204" && Pad(1_204, 3) == "1204"
  {
    assert Text(1) == "1" && Text(12) == "12" && Text(120) == "120";
    assert Zeros(2) == "00";
    TextValue(1_204);
  }
}
