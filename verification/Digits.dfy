/** Numbers written in a fixed number of digits, most significant first: the octal fields of an archive
    header and the hexadecimal words of ABI calldata. */
module Digits {

  function Pow(base: nat, e: nat): nat {
    if e == 0 then 1 else base * Pow(base, e - 1)
  }

  function Value(base: nat, digits: seq<nat>): nat {
    if digits == [] then 0 else Value(base, digits[..|digits| - 1]) * base + digits[|digits| - 1]
  }

  function Written(base: nat, n: nat, width: nat): seq<nat>
    requires base >= 2
  {
    if width == 0 then [] else Written(base, n / base, width - 1) + [n % base]
  }

  ghost predicate DigitsOf(base: nat, digits: seq<nat>) {
    forall d :: d in digits ==> d < base
  }

  /** What is written in enough digits reads back as itself. */
  lemma {:induction false} WrittenReadsBack(base: nat, n: nat, width: nat)
    requires base >= 2 && n < Pow(base, width)
    ensures |Written(base, n, width)| == width
    ensures DigitsOf(base, Written(base, n, width))
    ensures Value(base, Written(base, n, width)) == n
  {
    if width > 0 {
      QuotientFits(base, n, Pow(base, width - 1));
      WrittenReadsBack(base, n / base, width - 1);
      var high := Written(base, n / base, width - 1);
      assert (high + [n % base])[..width - 1] == high;
      QuotientAndRemainder(base, n);
    }
  }

  lemma QuotientAndRemainder(base: nat, n: nat)
    requires base >= 2
    ensures n / base * base + n % base == n
  {
  }

  lemma ProductIsMonotone(a: nat, b: nat, c: nat)
    ensures a <= b ==> a * c <= b * c
  {
  }

  lemma QuotientFits(base: nat, n: nat, p: nat)
    requires base >= 2 && n < base * p
    ensures n / base < p
  {
    QuotientAndRemainder(base, n);
    ProductIsMonotone(p, n / base, base);
  }

  lemma {:induction false} ValueFits(base: nat, digits: seq<nat>)
    requires DigitsOf(base, digits)
    ensures Value(base, digits) < Pow(base, |digits|)
  {
    if digits != [] {
      var high, low := digits[..|digits| - 1], digits[|digits| - 1];
      assert forall d :: d in high ==> d in digits;
      ValueFits(base, high);
      assert low in digits;
      ProductIsMonotone(Value(base, high) + 1, Pow(base, |high|), base);
      assert (Value(base, high) + 1) * base == Value(base, high) * base + base;
    }
  }

  lemma {:induction false} PowerOfSum(base: nat, a: nat, b: nat)
    ensures Pow(base, a + b) == Pow(base, a) * Pow(base, b)
  {
    if b > 0 {
      PowerOfSum(base, a, b - 1);
      assert Pow(base, a + b) == base * (Pow(base, a) * Pow(base, b - 1));
      assert base * (Pow(base, a) * Pow(base, b - 1)) == Pow(base, a) * (base * Pow(base, b - 1));
    }
  }

  /** Digits read together: the high part moves up by the width of the low part. */
  lemma {:induction false} ValueOfConcat(base: nat, high: seq<nat>, low: seq<nat>)
    ensures Value(base, high + low) == Value(base, high) * Pow(base, |low|) + Value(base, low)
  {
    if low == [] {
      assert high + low == high;
    } else {
      var front, last := low[..|low| - 1], low[|low| - 1];
      assert (high + low)[..|high + low| - 1] == high + front;
      ValueOfConcat(base, high, front);
      Regroup(Value(base, high), Pow(base, |front|), Value(base, front), base);
    }
  }

  lemma Regroup(h: nat, p: nat, v: nat, base: nat)
    ensures (h * p + v) * base == h * (base * p) + v * base
  {
    assert (h * p + v) * base == h * p * base + v * base;
    assert h * p * base == h * (base * p);
  }

  lemma MultipleIsFarFromZero(d: int, k: int)
    requires k >= 0
    ensures d >= 1 ==> d * k >= k
    ensures d <= -1 ==> d * k <= -k
  {
    if d >= 1 {
      assert d * k == (d - 1) * k + k;
    } else if d <= -1 {
      assert d * k == (d + 1) * k - k;
    }
  }

  /** Quotient and remainder are the only such pair. */
  lemma QuotientIsUnique(n: nat, p: nat, q: nat, r: nat)
    requires n == q * p + r && r < p
    ensures q == n / p && r == n % p
  {
    assert n == n / p * p + n % p;
    assert (q - n / p) * p == q * p - n / p * p;
    MultipleIsFarFromZero(q - n / p, p);
  }
}
