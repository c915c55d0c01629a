/** The exact algorithms of class `Fibonacci` — naive recursion, the
    iterative sliding window and fast doubling — and the dispatch that selects
    one by version number. Java's `long`, `int` and `BigInteger` become
    Dafny's unbounded `int`/`nat`; each algorithm is proved to return `Fib(n)`. */
module Fibonacci {
  import opened FibSpec
  import opened Bits

  /** `fib1`: the recurrence transcribed as recursion. */
  function Fib1(n: nat): (r: int)
    ensures r == Fib(n)
  {
    if n == 0 then 0
    else if n == 1 then 1
    else Fib1(n - 1) + Fib1(n - 2)
  }

  /** `fib2`: a three-term window (F(i-3), F(i-2), F(i-1)) advanced while
      i runs from 3 up to and including n; `current` starts at F(2) = 1.
      The early exits cover n = 0 and n = 1. */
  method Fib2(n: nat) returns (r: int)
    ensures r == Fib(n)
  {
    var minusTwo := 0;
    var minusOne := 1;
    var current := 1;

    if n == 0 {
      return minusTwo;
    } else if n == 1 {
      return minusOne;
    }

    var i := 3;
    while i <= n
      invariant 3 <= i <= n + 1
      invariant minusTwo == Fib(i - 3)
      invariant minusOne == Fib(i - 2)
      invariant current == Fib(i - 1)
    {
      minusTwo := minusOne;
      minusOne := current;
      current := minusOne + minusTwo;
      i := i + 1;
    }
    return current;
  }

  /** `fib4`: fast doubling over the binary digits of n, from the highest set
      digit down to digit 0. The ghost `m` is the number formed by the digits
      already consumed; the loop keeps a = F(m) and b = F(m+1). For n = 0
      there is no set digit, the loop is skipped and the initial a = 0 is
      returned. */
  method Fib4(n: nat) returns (r: int)
    ensures r == Fib(n)
  {
    var a := 0;
    var b := 1;
    ghost var m: nat := 0;

    var bit := HighestOneBit(n);
    if bit != 0 {
      DivUnique(n, 2 * bit, 0, n);
    }
    while bit != 0
      invariant bit != 0 ==> IsPow2(bit) && m == n / (2 * bit)
      invariant bit == 0 ==> m == n
      invariant a == Fib(m) && b == Fib(m + 1)
      decreases bit
    {
      ConsumeDigit(n, bit);

      // doubling: (F(m), F(m+1)) becomes (F(2m), F(2m+1))
      DoublingStep(m);
      var c := a * (b * 2 - a);
      var d := a * a + b * b;
      a := c;
      b := d;
      m := 2 * m;

      // advance by one when the current digit of n is set:
      // (F(m), F(m+1)) becomes (F(m+1), F(m+2)) by the recurrence
      AndPow2(n, bit);
      if And(n, bit) != 0 {
        var e := a + b;
        a := b;
        b := e;
        m := m + 1;
      }
      // m is now the prefix n / bit, which includes the current digit

      assert bit != 1 ==> m == n / (2 * (bit / 2));
      bit := bit / 2;
    }
    return a;
  }

  /** The doubling step of `fib4` maps (F(m), F(m+1)) to (F(2m), F(2m+1));
      its operand 2*F(m+1) - F(m) is never negative. */
  lemma DoublingStep(m: nat)
    ensures Fib(m + 1) * 2 - Fib(m) >= 0
    ensures Fib(m) * (Fib(m + 1) * 2 - Fib(m)) == Fib(2 * m)
    ensures Fib(m) * Fib(m) + Fib(m + 1) * Fib(m + 1) == Fib(2 * m + 1)
  {
    FibMonotone(m, m + 1);
    FibDoubleEven(m);
    FibDoubleOdd(m);
  }

  /** Appending the digit of weight `bit` to the digits above it gives the
      digits from `bit` upward; halving `bit` then moves to the next digit. */
  lemma ConsumeDigit(n: nat, bit: nat)
    requires IsPow2(bit)
    ensures 2 * (n / (2 * bit)) + (n / bit) % 2 == n / bit
    ensures bit == 1 ==> n / bit == n
    ensures bit != 1 ==> bit / 2 != 0 && n / (2 * (bit / 2)) == n / bit
  {
    DivDiv(n, bit, 2);
    assert bit * 2 == 2 * bit;
  }

  /** What the closed form of `fib3` produces: the truncated value, or the
      `NumberFormatException` that `new BigDecimal` throws when the `double`
      it is given is infinite or not a number. */
  datatype ClosedForm = Exact(value: int) | NotFinite

  /** The outcome of a dispatch: the computed number, the rejected version
      number, or the closed form's exception for index n. */
  datatype Outcome =
    | Computed(value: int)
    | InvalidAlgorithm(version: int)
    | ClosedFormFailed(n: nat)

  /** The versions `compute` accepts. */
  predicate ValidVersion(version: int)
  {
    1 <= version <= 4
  }

  /** `compute`: select an algorithm by version number. Version 3 is the
      floating-point closed form, which stays outside the model and is passed
      in as `binet`; its exception propagates out of the dispatch. Any other
      version outside 1..4 is an error. */
  method Compute(n: nat, version: int, binet: nat -> ClosedForm) returns (r: Outcome)
    ensures r.InvalidAlgorithm? <==> !ValidVersion(version)
    ensures r.InvalidAlgorithm? ==> r.version == version
    ensures r.ClosedFormFailed? <==> version == 3 && binet(n).NotFinite?
    ensures r.ClosedFormFailed? ==> r.n == n
    ensures version in {1, 2, 4} ==> r == Computed(Fib(n))
    ensures version == 3 && binet(n).Exact? ==> r == Computed(binet(n).value)
  {
    match version
    case 1 =>
      r := Computed(Fib1(n));
    case 2 =>
      var v := Fib2(n);
      r := Computed(v);
    case 3 =>
      var closed := binet(n);
      if closed.Exact? {
        r := Computed(closed.value);
      } else {
        r := ClosedFormFailed(n);
      }
    case 4 =>
      var v := Fib4(n);
      r := Computed(v);
    case _ =>
      r := InvalidAlgorithm(version);
  }

  /** The iterative and the fast-doubling algorithm agree on every n. */
  method Fib2AgreesWithFib4(n: nat) returns (iterative: int, doubling: int)
    ensures iterative == doubling == Fib(n)
  {
    iterative := Fib2(n);
    doubling := Fib4(n);
  }

  /** The dispatch on a few concrete indices and versions: the exact
      algorithms give 0, 1, 55 and 12586269025, versions 2 and 4 agree, and
      versions 0 and 5 are rejected rather than read as a number. */
  method DispatchExamples(binet: nat -> ClosedForm)
    returns (zero: Outcome, one: Outcome, ten2: Outcome, ten4: Outcome,
             fifty2: Outcome, fifty4: Outcome, badLow: Outcome, badHigh: Outcome)
    ensures zero == Computed(0) && one == Computed(1)
    ensures ten2 == ten4 == Computed(55)
    ensures fifty2 == fifty4 == Computed(12586269025)
    ensures badLow == InvalidAlgorithm(0) && badHigh == InvalidAlgorithm(5)
  {
    SmallValues();
    zero := Compute(0, 2, binet);
    one := Compute(1, 2, binet);
    ten2 := Compute(10, 2, binet);
    ten4 := Compute(10, 4, binet);
    fifty2 := Compute(50, 2, binet);
    fifty4 := Compute(50, 4, binet);
    badLow := Compute(10, 0, binet);
    badHigh := Compute(10, 5, binet);
  }

  /** A few values of the sequence, unfolded in steps the verifier can
      follow. */
  lemma SmallValues()
    ensures Fib(10) == 55
    ensures Fib(50) == 12586269025
  {
    assert Fib(11) == 89;
    assert Fib(19) == 4181 && Fib(20) == 6765;
    assert Fib(29) == 514229 && Fib(30) == 832040;
    assert Fib(39) == 63245986 && Fib(40) == 102334155;
  }
}
