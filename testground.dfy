/**
 * The user-space test program's recursive fast-doubling routine.  Its two
 * other routines are copies of the driver's fib_sequence and
 * fib_sequence_dp and are modelled once, in FibDrv.
 */
module TestGround {
  import opened FibMath

  /**
   * fib_fd: 0 for n = 0 and 1 for every other n <= 2 (negative n
   * included); above that F(2k + 1) = F(k)² + F(k + 1)² for odd n and
   * F(2k) = F(k)·(2F(k + 1) - F(k)) for even n.
   */
  function FibFd(n: int): int
    decreases n
  {
    if n == 0 then 0
    else if n <= 2 then 1
    else if n % 2 == 1 then
      var k := (n - 1) / 2;
      FibFd(k) * FibFd(k) + FibFd(k + 1) * FibFd(k + 1)
    else
      var k := n / 2;
      FibFd(k) * (2 * FibFd(k + 1) - FibFd(k))
  }

  /** fib_fd agrees with the Fibonacci numbers on every nonnegative n. */
  lemma {:induction false} FibFdIsFib(n: nat)
    ensures FibFd(n) == Fib(n)
    decreases n
  {
    if n > 2 {
      var k := n / 2;
      Halves(n);
      FibFdIsFib(k);
      FibFdIsFib(k + 1);
      FibDoubling(k);
    }
  }

  /** Both halvings of fib_fd name the same k = n / 2. */
  lemma {:induction false} Halves(n: nat)
    ensures n % 2 == 1 ==> (n - 1) / 2 == n / 2 && n == 2 * (n / 2) + 1
    ensures n % 2 == 0 ==> n == 2 * (n / 2)
  {
  }

  /** Up to n = 92 the result of fib_fd fits its `long long`. */
  lemma {:induction false} FibFdFits(n: nat)
    requires n <= 92
    ensures 0 <= FibFd(n) < 0x8000_0000_0000_0000
  {
    FibFdIsFib(n);
    FibFitsInt64(n);
  }
}
