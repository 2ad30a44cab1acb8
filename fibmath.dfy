/**
 * The Fibonacci numbers every routine of the driver and its test program
 * computes, and the identities their fast-doubling loops rest on.
 */
module FibMath {

  /** F(0) = 0, F(1) = 1, F(n) = F(n - 1) + F(n - 2). */
  function Fib(n: nat): nat
  {
    if n < 2 then n else Fib(n - 1) + Fib(n - 2)
  }

  lemma {:induction false} FibPositive(n: nat)
    requires n >= 1
    ensures Fib(n) >= 1
  {
    if n > 2 {
      FibPositive(n - 1);
    }
  }

  lemma {:induction false} FibMono(m: nat, n: nat)
    requires m <= n
    ensures Fib(m) <= Fib(n)
  {
    if m < n {
      FibMono(m, n - 1);
      assert n >= 2 ==> Fib(n) == Fib(n - 1) + Fib(n - 2);
    }
  }

  /** The addition law F(a + b + 1) = F(a + 1)·F(b + 1) + F(a)·F(b). */
  lemma {:induction false} FibAdd(a: nat, b: nat)
    ensures Fib(a + b + 1) == Fib(a + 1) * Fib(b + 1) + Fib(a) * Fib(b)
  {
    if b < 2 {
      FibAddBase(a, b);
    } else {
      FibAdd(a, b - 1);
      FibAdd(a, b - 2);
      FibAddStep(a, b);
    }
  }

  lemma {:induction false} FibAddBase(a: nat, b: nat)
    requires b < 2
    ensures Fib(a + b + 1) == Fib(a + 1) * Fib(b + 1) + Fib(a) * Fib(b)
  {
    var x, y := Fib(a + 1), Fib(a);
    if b == 0 {
      assert Fib(1) == 1 && Fib(0) == 0;
      assert x * 1 + y * 0 == x;
    } else {
      assert Fib(2) == 1 && Fib(1) == 1;
      assert Fib(a + 2) == x + y;
      assert x * 1 + y * 1 == x + y;
    }
  }

  /** The addition law at b from the law at b - 1 and b - 2. */
  lemma {:induction false} FibAddStep(a: nat, b: nat)
    requires b >= 2
    requires Fib(a + (b - 1) + 1) == Fib(a + 1) * Fib(b - 1 + 1) + Fib(a) * Fib(b - 1)
    requires Fib(a + (b - 2) + 1) == Fib(a + 1) * Fib(b - 2 + 1) + Fib(a) * Fib(b - 2)
    ensures Fib(a + b + 1) == Fib(a + 1) * Fib(b + 1) + Fib(a) * Fib(b)
  {
    assert Fib(a + b + 1) == Fib(a + b) + Fib(a + b - 1);
    assert Fib(b + 1) == Fib(b) + Fib(b - 1);
    assert Fib(b) == Fib(b - 1) + Fib(b - 2);
    FibAddArith(Fib(a + b), Fib(a + b - 1), Fib(a + 1), Fib(a), Fib(b + 1), Fib(b), Fib(b - 1), Fib(b - 2));
  }

  lemma {:induction false} FibAddArith(p: int, q: int, x: int, y: int, f1: int, f0: int, g1: int, g0: int)
    requires p == x * f0 + y * g1 && q == x * g1 + y * g0
    requires f1 == f0 + g1 && f0 == g1 + g0
    ensures p + q == x * f1 + y * f0
  {
  }

  /**
   * The fast-doubling identities: F(2m) = F(m)·(2F(m + 1) - F(m)) and
   * F(2m + 1) = F(m)² + F(m + 1)².
   */
  lemma {:induction false} FibDoubling(m: nat)
    ensures Fib(2 * m) == Fib(m) * (2 * Fib(m + 1) - Fib(m))
    ensures Fib(2 * m + 1) == Fib(m) * Fib(m) + Fib(m + 1) * Fib(m + 1)
  {
    FibAdd(m, m);
    if m >= 1 {
      FibAdd(m - 1, m);
      assert Fib(m + 1) == Fib(m) + Fib(m - 1);
      DoublingArith(Fib(m), Fib(m + 1), Fib(m - 1));
    }
  }

  lemma {:induction false} DoublingArith(f: int, g: int, h: int)
    requires g == f + h
    ensures f * g + h * f == f * (2 * g - f)
  {
  }

  /** Ten steps of the recurrence at once. */
  lemma {:induction false} FibJump(n: nat, a: nat, b: nat)
    requires Fib(n) == a && Fib(n + 1) == b
    ensures Fib(n + 10) == 34 * a + 55 * b && Fib(n + 11) == 55 * a + 89 * b
  {
    assert Fib(n + 2) == a + b;
    assert Fib(n + 3) == a + 2 * b;
    assert Fib(n + 4) == 2 * a + 3 * b;
    assert Fib(n + 5) == 3 * a + 5 * b;
    assert Fib(n + 6) == 5 * a + 8 * b;
    assert Fib(n + 7) == 8 * a + 13 * b;
    assert Fib(n + 8) == 13 * a + 21 * b;
    assert Fib(n + 9) == 21 * a + 34 * b;
  }

  /** F(92) is the largest Fibonacci number a signed 64-bit integer holds. */
  lemma FibLimit()
    ensures Fib(92) == 7540113804746346429 < 0x8000_0000_0000_0000
    ensures Fib(93) == 12200160415121876738 >= 0x8000_0000_0000_0000
  {
    FibJump(0, 0, 1);
    FibJump(10, 55, 89);
    FibJump(20, 6765, 10946);
    FibJump(30, 832040, 1346269);
    FibJump(40, 102334155, 165580141);
    FibJump(50, 12586269025, 20365011074);
    FibJump(60, 1548008755920, 2504730781961);
    FibJump(70, 190392490709135, 308061521170129);
    FibJump(80, 23416728348467685, 37889062373143906);
    assert Fib(92) == Fib(91) + Fib(90);
    assert Fib(93) == Fib(92) + Fib(91);
  }

  /** Every F(n) with n <= 92 is below 2^63. */
  lemma {:induction false} FibFitsInt64(n: nat)
    requires n <= 92
    ensures Fib(n) < 0x8000_0000_0000_0000
  {
    FibLimit();
    FibMono(n, 92);
  }
}
