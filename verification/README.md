# Fibonacci algorithms, modelled in Dafny

This project models the exact algorithms of the Java class `Fibonacci`. Each one computes the n-th Fibonacci number F(n), with F(0) = 0 and F(1) = 1:

- `fib1` is naive recursion.
- `fib2` is an iterative three-term sliding window over `BigInteger`.
- `fib4` is fast doubling over the binary digits of `n`.
- `compute` selects an algorithm by version number.

Each algorithm is proved against one recursive reference definition, `FibSpec.Fib`. As a consequence, the iterative and the fast-doubling algorithm agree for every `n >= 0`.

Layout:

- `fib_spec.dfy` (module `FibSpec`): the reference definition `Fib`, monotonicity, the addition formula F(m+k+1) = F(m+1)F(k+1) + F(m)F(k), and the two doubling identities that follow from it.
- `bits.dfy` (module `Bits`): the integer bit operations the fast-doubling loop uses, on non-negative integers. These are `Integer.highestOneBit` and bitwise `&`. `&` is characterised digit by digit, and masking with a power of two reads one binary digit. The loop's `bit >>>= 1` is halving on a non-negative value and is written inline in `Fib4` as `bit / 2`.
- `fibonacci.dfy` (module `Fibonacci`): `Fib1`, `Fib2`, `Fib4`, the step lemmas of the doubling loop, and the dispatch `Compute` with its `Outcome` result.

Java's `long`, `int` and `BigInteger` are all modelled by Dafny's unbounded `int`/`nat`. `fib4`'s loop carries a ghost `m`: the number formed by the digits of `n` consumed so far. The loop keeps `a = F(m)` and `b = F(m+1)`. The source states this invariant in a comment at line 95.

## Model

| member | source | states |
|---|---|---|
| `Fibonacci.Fib1` | Fibonacci.java:28-35 | The naive recursion returns F(n) for every n ≥ 0, including the two base cases 0 and 1. |
| `Fibonacci.Fib2` | Fibonacci.java:42-61 | The early exits return 0 for n = 0 and 1 for n = 1. For n ≥ 2, the window preloaded with F(2) = 1 and advanced for i = 3..n inclusive returns F(n). The loop invariant is (minusTwo, minusOne, current) = (F(i-3), F(i-2), F(i-1)). |
| `Fibonacci.Fib4` | Fibonacci.java:89-110 | Fast doubling returns F(n) for every n ≥ 0. For n = 0 the loop is skipped and the initial a = 0 is returned. The loop invariant is a = F(m), b = F(m+1), where m is formed by the digits of n above the current bit. The conditional advance (a, b) := (b, a+b) moves (F(k), F(k+1)) to (F(k+1), F(k+2)) by the recurrence itself. |
| `Fibonacci.DoublingStep` | Fibonacci.java:96-99 | The operand 2·F(m+1) − F(m) is never negative. c = a(2b − a) and d = a² + b² map (F(m), F(m+1)) to (F(2m), F(2m+1)). |
| `Fibonacci.ConsumeDigit` | Fibonacci.java:94-107 | One iteration of the loop turns the consumed prefix m = n / 2bit into 2m + digit = n / bit. After `bit >>>= 1`, that value is again the prefix above the new bit. Once bit 0 has been consumed, the prefix is n itself. |
| `Fibonacci.Compute` | Fibonacci.java:117-137 | Versions 1, 2 and 4 return F(n). Version 3 returns the closed form's value, which is passed in as a parameter. When that closed form throws (its `double` is not finite), the exception propagates as `ClosedFormFailed(n)`, and only then. Every version outside 1..4, and only those, yields the distinct error `InvalidAlgorithm(version)`. |
| `Fibonacci.DispatchExamples` | Fibonacci.java:117-137 | On concrete inputs the dispatch gives 0 for (0, 2), 1 for (1, 2), 55 for (10, 2) and (10, 4), and 12586269025 for (50, 2) and (50, 4). Versions 0 and 5 give `InvalidAlgorithm`, not a number. |
| `Fibonacci.Fib2AgreesWithFib4` | Fibonacci.java:126-128 | The iterative and the fast-doubling algorithm that `compute` dispatches to for versions 2 and 4 return the same value, F(n), for every n ≥ 0. |
| `Bits.HighestOneBit` | Fibonacci.java:94 | `Integer.highestOneBit(n)` is 0 exactly when n is 0. Otherwise it is a power of two with bit ≤ n < 2·bit, so the loop starts at the highest set digit of n. |
| `Bits.And` | Fibonacci.java:102 | `x & y` on non-negative integers is bounded by both operands. Its value is pinned down digit by digit by `Bits.AndDigits`, and for a power-of-two mask by `Bits.AndPow2`. |
| `Bits.AndDigits` | Fibonacci.java:102 | For every power of two `bit`, the binary digit of weight `bit` in `x & y` is 1 exactly when it is 1 in both x and y. |
| `Bits.AndPow2` | Fibonacci.java:102 | For a power of two `bit`, `(n & bit) != 0` holds exactly when the binary digit of n with weight `bit` is 1. |
| `FibSpec.FibMonotone` | Fibonacci.java:96 | F never decreases. So F(m) ≤ F(m+1), and the subtraction in `b.shiftLeft(1).subtract(a)` never goes below zero. |
| `FibSpec.FibDoubleEven` | Fibonacci.java:96 | F(2m) = F(m)·(2F(m+1) − F(m)): the value assigned to `c`. |
| `FibSpec.FibDoubleOdd` | Fibonacci.java:97 | F(2m+1) = F(m)² + F(m+1)²: the value assigned to `d`. |

## Left out

- `fib3` (Binet's closed form) uses `double` arithmetic (`Math.sqrt`, `Math.pow`) and `BigDecimal` truncation. Floating point is not modelled. `Compute` takes the closed form as the parameter `binet`, which yields either a value or `NotFinite`. `NotFinite` stands for the `NumberFormatException` that `new BigDecimal` throws on an infinite `double`.
- `Compute`: which n make `fib3` throw is left to the `binet` parameter. In the source, `Math.pow(goldenRatio, n)` exceeds `Double.MAX_VALUE` from n = 1475 on, so version 3 throws there. The model returns that failure as a value, where the source lets the exception escape `main`.
- The timing fields `startTime`/`endTime` and `getCalculationTime` are left out, because they only read the wall clock (`System.nanoTime`) and have no functional behaviour. The same goes for the timestamps taken inside `fib2`, `fib3`, `fib4` and `compute`.
- `main` is left out. It parses the arguments, writes `out.txt`, prints the timings and calls `System.exit`, which is command-line and I/O glue.
- `Compute` does not print or exit on an invalid version. It returns `InvalidAlgorithm(version)`, so the unreachable `return BigInteger.ZERO` after `System.exit(1)` has no counterpart.
- `Fib1`: does not model the 64-bit `long` wrap-around of `fib1`, and neither does `Compute` version 1, which passes that `long` on through `BigInteger.valueOf`. Results are unbounded integers, so the model returns F(n) where the Java method overflows (from n = 93 on, F(93) > 2^63 − 1).
- `Fib2`: the loop counter `i` is a 32-bit `int` in the source. For n = 2147483647 (`Integer.MAX_VALUE`), `i++` wraps to `Integer.MIN_VALUE`, which is still `<= n`. So `fib2` never leaves its loop there and never returns, while the model's unbounded counter stops and returns F(n).
- `n` is a `nat`, not a 32-bit `int`. Negative `n` is rejected by `main` before any algorithm runs, and the 2^31 upper bound is not modelled.
- The growth rate of the result's bit length is not stated.
