/** The integer bit operations the fast-doubling loop uses, on non-negative
    integers: `Integer.highestOneBit` and `&`. (The loop's right shift by
    one is halving on a non-negative value and is written inline there.) */
module Bits {

  /** x is 2^k for some k >= 0. */
  ghost predicate IsPow2(x: nat)
  {
    x == 1 || (x >= 2 && x % 2 == 0 && IsPow2(x / 2))
  }

  /** Division by a product is repeated division. */
  lemma DivDiv(n: nat, x: nat, y: nat)
    requires x > 0 && y > 0
    ensures n / (x * y) == (n / x) / y
  {
    var q, r := n / x, n % x;
    var q2, r2 := q / y, q % y;
    var s := x * r2 + r;
    assert n == x * q + r;
    assert q == y * q2 + r2;
    assert x * q == (x * y) * q2 + x * r2 by {
      MulDistrib(x, y * q2, r2);
      assert x * (y * q2) == (x * y) * q2;
    }
    assert s < x * y by {
      assert r2 <= y - 1;
      MulMono(x, r2, y - 1);
      MulDistrib(x, y - 1, 1);
    }
    DivUnique(n, x * y, q2, s);
  }

  lemma MulDistrib(a: int, b: int, c: int)
    ensures a * (b + c) == a * b + a * c
  {
  }

  lemma MulMono(a: nat, b: nat, c: nat)
    requires b <= c
    ensures a * b <= a * c
  {
    MulDistrib(a, b, c - b);
  }

  /** Quotient and remainder are determined by n = d*q + r with 0 <= r < d. */
  lemma DivUnique(n: nat, d: nat, q: nat, r: nat)
    requires d > 0 && r < d && n == d * q + r
    ensures n / d == q
  {
    var q', r' := n / d, n % d;
    assert d * q + r == d * q' + r';
    if q' < q {
      MulMono(d, q' + 1, q);
      MulDistrib(d, q', 1);
      assert false;
    } else if q < q' {
      MulMono(d, q + 1, q');
      MulDistrib(d, q, 1);
      assert false;
    }
  }

  /** `Integer.highestOneBit`: the largest power of two not above n, or 0
      when n is 0. */
  function HighestOneBit(n: nat): (r: nat)
    ensures n == 0 <==> r == 0
    ensures n > 0 ==> IsPow2(r) && r <= n < 2 * r
  {
    if n <= 1 then n else 2 * HighestOneBit(n / 2)
  }

  /** Bitwise `&` on non-negative integers, one binary digit at a time. */
  function And(x: nat, y: nat): (r: nat)
    ensures r <= x && r <= y
  {
    if x == 0 || y == 0 then 0
    else 2 * And(x / 2, y / 2) + (if x % 2 == 1 && y % 2 == 1 then 1 else 0)
  }

  /** `And` works digit by digit: the binary digit of weight `bit` of
      `x & y` is 1 exactly when that digit is 1 in both x and y. */
  lemma {:induction false} AndDigits(x: nat, y: nat, bit: nat)
    requires IsPow2(bit)
    ensures (And(x, y) / bit) % 2 == 1 <==> (x / bit) % 2 == 1 && (y / bit) % 2 == 1
    decreases bit
  {
    if x == 0 || y == 0 {
      assert And(x, y) == 0;
    } else if bit == 1 {
      assert And(x, y) % 2 == (if x % 2 == 1 && y % 2 == 1 then 1 else 0);
    } else {
      var h := bit / 2;
      assert 2 * h == bit;
      var rest := And(x / 2, y / 2);
      AndDigits(x / 2, y / 2, h);
      assert And(x, y) / 2 == rest;
      DivDiv(And(x, y), 2, h);
      DivDiv(x, 2, h);
      DivDiv(y, 2, h);
    }
  }

  /** Masking with a power of two picks out one binary digit of n:
      `(n & bit) != 0` holds exactly when the digit of weight `bit` is 1. */
  lemma {:induction false} AndPow2(n: nat, bit: nat)
    requires IsPow2(bit)
    ensures And(n, bit) != 0 <==> (n / bit) % 2 == 1
    decreases bit
  {
    if bit == 1 {
      assert And(n, 1) == (if n % 2 == 1 then 1 else 0);
    } else if n == 0 {
      assert And(n, bit) == 0;
    } else {
      var h := bit / 2;
      AndPow2(n / 2, h);
      assert And(n, bit) == 2 * And(n / 2, h);
      DivDiv(n, 2, h);
      assert 2 * h == bit;
    }
  }
}
