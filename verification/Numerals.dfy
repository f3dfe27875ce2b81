/** Positional numerals, most significant digit first. */
module Numerals {

  function Value(base: nat, digits: seq<nat>): nat {
    if |digits| == 0 then 0 else Value(base, digits[..|digits| - 1]) * base + digits[|digits| - 1]
  }

  function Digits(base: nat, n: nat): (digits: seq<nat>)
    requires base >= 2
    ensures forall i :: 0 <= i < |digits| ==> digits[i] < base
    ensures n > 0 ==> |digits| > 0 && digits[0] != 0
  {
    if n == 0 then []
    else
      QuotientIsSmaller(n, base);
      Digits(base, n / base) + [n % base]
  }

  predicate AreDigits(base: nat, digits: seq<nat>) {
    forall i :: 0 <= i < |digits| ==> digits[i] < base
  }

  /** Number of leading zero digits. */
  function LeadingZeros(digits: seq<nat>): (k: nat)
    ensures k <= |digits| && (forall i :: 0 <= i < k ==> digits[i] == 0)
    ensures k < |digits| ==> digits[k] != 0
  {
    if |digits| == 0 || digits[0] != 0 then 0 else 1 + LeadingZeros(digits[1..])
  }

  function Zeros(k: nat): (digits: seq<nat>)
    ensures |digits| == k && forall i :: 0 <= i < k ==> digits[i] == 0
  {
    seq(k, i => 0)
  }

  function Pow(base: nat, e: nat): nat {
    if e == 0 then 1 else base * Pow(base, e - 1)
  }

  lemma QuotientIsSmaller(n: nat, base: nat)
    requires n > 0 && base >= 2
    ensures n / base < n
  {
  }

  lemma DivModOf(n: nat, base: nat)
    requires base > 0
    ensures n / base * base + n % base == n
  {
  }

  lemma {:induction false} ValueOfDigits(base: nat, n: nat)
    requires base >= 2
    ensures Value(base, Digits(base, n)) == n
  {
    if n > 0 {
      var q, r := n / base, n % base;
      QuotientIsSmaller(n, base);
      ValueOfDigits(base, q);
      calc {
        Value(base, Digits(base, n));
        Value(base, Digits(base, q) + [r]);
        { ValueOfLast(base, Digits(base, q), r); }
        Value(base, Digits(base, q)) * base + r;
        q * base + r;
        { DivModOf(n, base); }
        n;
      }
    }
  }

  lemma ValueOfLast(base: nat, front: seq<nat>, last: nat)
    ensures Value(base, front + [last]) == Value(base, front) * base + last
  {
    assert (front + [last])[..|front|] == front;
  }

  /** Leading zeros do not change the value. */
  lemma {:induction false} ValueOfPadded(base: nat, k: nat, digits: seq<nat>)
    ensures Value(base, Zeros(k) + digits) == Value(base, digits)
    decreases k + |digits|
  {
    var padded := Zeros(k) + digits;
    if |digits| > 0 {
      var front := digits[..|digits| - 1];
      assert padded[..|padded| - 1] == Zeros(k) + front;
      ValueOfPadded(base, k, front);
    } else if k > 0 {
      assert padded[..k - 1] == Zeros(k - 1) + [];
      ValueOfPadded(base, k - 1, []);
    }
  }

  /** The sum of the digits, each times its power of the base. */
  function PowerSum(base: nat, digits: seq<nat>): nat {
    if |digits| == 0 then 0 else digits[0] * Pow(base, |digits| - 1) + PowerSum(base, digits[1..])
  }

  lemma {:induction false} PowerSumOfLast(base: nat, front: seq<nat>, last: nat)
    ensures PowerSum(base, front + [last]) == PowerSum(base, front) * base + last
  {
    var digits := front + [last];
    if |front| == 0 {
      assert digits[1..] == [] && Pow(base, 0) == 1;
    } else {
      assert digits[1..] == front[1..] + [last];
      PowerSumOfLast(base, front[1..], last);
      ShiftPower(base, front[0], |front| - 1, PowerSum(base, front[1..]));
    }
  }

  lemma ShiftPower(base: nat, digit: nat, e: nat, rest: nat)
    ensures digit * Pow(base, e + 1) + rest * base == (digit * Pow(base, e) + rest) * base
  {
    var power := Pow(base, e);
    assert digit * (base * power) == digit * power * base;
  }

  /** What a numeral means. */
  lemma {:induction false} ValueIsPowerSum(base: nat, digits: seq<nat>)
    ensures Value(base, digits) == PowerSum(base, digits)
  {
    if |digits| > 0 {
      var front, last := digits[..|digits| - 1], digits[|digits| - 1];
      assert digits == front + [last];
      ValueIsPowerSum(base, front);
      PowerSumOfLast(base, front, last);
    }
  }

  lemma TimesMonotone(factor: nat, x: int, y: int)
    requires x <= y
    ensures x * factor <= y * factor
  {
  }

  lemma DivModUnique(base: nat, q: nat, r: nat)
    requires 0 <= r < base
    ensures (q * base + r) / base == q && (q * base + r) % base == r
  {
    var n := q * base + r;
    var d := n / base - q;
    assert d * base == r - n % base by {
      assert n == (n / base) * base + n % base;
    }
    if d >= 1 {
      TimesMonotone(base, 1, d);
    } else if d <= -1 {
      TimesMonotone(base, d, -1);
    }
  }

  lemma {:induction false} PositiveValue(base: nat, digits: seq<nat>)
    requires base >= 1 && |digits| > 0 && digits[0] != 0
    ensures Value(base, digits) > 0
  {
    if |digits| > 1 {
      PositiveValue(base, digits[..|digits| - 1]);
    }
  }

  /** A numeral without leading zeros is the one the digit loop produces from its value. */
  lemma {:induction false} DigitsOfValue(base: nat, digits: seq<nat>)
    requires base >= 2 && AreDigits(base, digits) && LeadingZeros(digits) == 0
    ensures Digits(base, Value(base, digits)) == digits
  {
    if |digits| > 0 {
      var front, last := digits[..|digits| - 1], digits[|digits| - 1];
      PositiveValue(base, digits);
      DivModUnique(base, Value(base, front), last);
      assert LeadingZeros(front) == 0;
      DigitsOfValue(base, front);
    }
  }

  /** Every numeral is its leading zeros followed by the digits of its value. */
  lemma PaddedDigits(base: nat, digits: seq<nat>)
    requires base >= 2 && AreDigits(base, digits)
    ensures digits == Zeros(LeadingZeros(digits)) + Digits(base, Value(base, digits))
  {
    var k := LeadingZeros(digits);
    var rest := digits[k..];
    assert digits == Zeros(k) + rest;
    ValueOfPadded(base, k, rest);
    DigitsOfValue(base, rest);
  }

  lemma {:induction false} LeadingZerosOfPadded(k: nat, digits: seq<nat>)
    requires LeadingZeros(digits) == 0
    ensures LeadingZeros(Zeros(k) + digits) == k
  {
    var padded := Zeros(k) + digits;
    if k > 0 {
      assert padded[1..] == Zeros(k - 1) + digits;
      LeadingZerosOfPadded(k - 1, digits);
    }
  }

  // ---- Lengths ----

  lemma {:induction false} ValueBound(base: nat, digits: seq<nat>)
    requires base >= 1 && AreDigits(base, digits)
    ensures Value(base, digits) < Pow(base, |digits|)
  {
    if |digits| > 0 {
      var front := digits[..|digits| - 1];
      ValueBound(base, front);
      NextPower(base, Value(base, front), digits[|digits| - 1], Pow(base, |front|));
    }
  }

  lemma NextPower(base: nat, v: nat, digit: nat, bound: nat)
    requires v < bound && digit < base
    ensures v * base + digit < base * bound
  {
    TimesMonotone(base, v + 1, bound);
  }

  lemma {:induction false} DigitCount(base: nat, n: nat, length: nat)
    requires base >= 2 && n < Pow(base, length)
    ensures |Digits(base, n)| <= length
  {
    if n > 0 {
      QuotientIsSmaller(n, base);
      QuotientBelow(n, base, Pow(base, length - 1));
      DigitCount(base, n / base, length - 1);
    }
  }

  lemma QuotientBelow(n: nat, base: nat, bound: nat)
    requires base >= 1 && n < base * bound
    ensures n / base < bound
  {
    if n / base >= bound {
      TimesMonotone(base, bound, n / base);
      assert false;
    }
  }

  lemma {:induction false} PowAdds(base: nat, a: nat, b: nat)
    ensures Pow(base, a + b) == Pow(base, a) * Pow(base, b)
  {
    if a > 0 {
      PowAdds(base, a - 1, b);
      calc {
        Pow(base, a + b);
        base * (Pow(base, a - 1) * Pow(base, b));
        (base * Pow(base, a - 1)) * Pow(base, b);
      }
    }
  }
}
