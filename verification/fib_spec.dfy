/** The Fibonacci sequence as a mathematical object, and the identities the
    fast-doubling algorithm rests on. Every algorithm in module Fibonacci is
    proved against the single reference definition `Fib` given here. */
module FibSpec {

  /** F(0) = 0, F(1) = 1, F(k) = F(k-1) + F(k-2). */
  ghost function Fib(n: nat): nat
  {
    if n == 0 then 0
    else if n == 1 then 1
    else Fib(n - 1) + Fib(n - 2)
  }

  /** The sequence never decreases. The fast-doubling step relies on this:
      its operand 2*F(m+1) - F(m) is never negative. */
  lemma {:induction false} FibMonotone(m: nat, k: nat)
    requires m <= k
    ensures Fib(m) <= Fib(k)
    decreases k - m
  {
    if m < k {
      FibMonotone(m, k - 1);
      assert Fib(k - 1) <= Fib(k) by {
        if k >= 2 {
          assert Fib(k) == Fib(k - 1) + Fib(k - 2);
        }
      }
    }
  }

  /** The addition formula F(m+k+1) = F(m+1)*F(k+1) + F(m)*F(k). */
  lemma {:induction false} FibAdd(m: nat, k: nat)
    ensures Fib(m + k + 1) == Fib(m + 1) * Fib(k + 1) + Fib(m) * Fib(k)
  {
    if k == 0 {
      assert Fib(1) == 1;
    } else if k == 1 {
      assert Fib(2) == 1;
      assert Fib(m + 2) == Fib(m + 1) + Fib(m);
    } else {
      FibAdd(m, k - 1);
      FibAdd(m, k - 2);
      FibAddStep(m, k);
    }
  }

  /** The inductive step of FibAdd: the formula for k-1 and k-2 gives it
      for k. */
  lemma FibAddStep(m: nat, k: nat)
    requires k >= 2
    requires Fib(m + k) == Fib(m + 1) * Fib(k) + Fib(m) * Fib(k - 1)
    requires Fib(m + k - 1) == Fib(m + 1) * Fib(k - 1) + Fib(m) * Fib(k - 2)
    ensures Fib(m + k + 1) == Fib(m + 1) * Fib(k + 1) + Fib(m) * Fib(k)
  {
    assert Fib(m + k + 1) == Fib(m + k) + Fib(m + k - 1);
    assert Fib(k + 1) == Fib(k) + Fib(k - 1);
    assert Fib(k) == Fib(k - 1) + Fib(k - 2);
    SumOfProducts(Fib(m + 1), Fib(m), Fib(k), Fib(k - 1), Fib(k - 2));
  }

  /** The algebra of one step of FibAdd, kept apart from Fib's unfolding. */
  lemma SumOfProducts(x: int, y: int, f2: int, f1: int, f0: int)
    ensures (x * f2 + y * f1) + (x * f1 + y * f0) == x * (f2 + f1) + y * (f1 + f0)
  {
  }

  /** Doubling identity for even indices: F(2m) = F(m) * (2*F(m+1) - F(m)). */
  lemma FibDoubleEven(m: nat)
    ensures Fib(2 * m) == Fib(m) * (2 * Fib(m + 1) - Fib(m))
  {
    if m > 0 {
      FibAdd(m, m - 1);
      assert Fib(m + 1) == Fib(m) + Fib(m - 1);
      var x, y := Fib(m + 1), Fib(m);
      calc {
        Fib(2 * m);
        x * y + y * Fib(m - 1);
        x * y + y * (x - y);
        y * (2 * x - y);
      }
    }
  }

  /** Doubling identity for odd indices: F(2m+1) = F(m)^2 + F(m+1)^2. */
  lemma FibDoubleOdd(m: nat)
    ensures Fib(2 * m + 1) == Fib(m) * Fib(m) + Fib(m + 1) * Fib(m + 1)
  {
    FibAdd(m, m);
  }
}
