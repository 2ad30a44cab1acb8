/**
 * The Fibonacci routines of the character device: the two 64-bit
 * algorithms, the two bignum algorithms and the clamping of the file
 * position by which a reader selects which Fibonacci number to read.
 */
module FibDrv {
  import opened Words
  import opened BnSpec
  import opened Bignum
  import opened FibMath

  /** The largest index the device serves. */
  const MAX_LENGTH: int := 817

  /** Values that fit a signed 64-bit `long long`. */
  predicate FitsInt64(x: int)
  {
    -0x8000_0000_0000_0000 <= x < 0x8000_0000_0000_0000
  }

  // ---------------------------------------------------------------------
  // fib_sequence_dp: the table f[0..k]
  // ---------------------------------------------------------------------

  /**
   * fib_sequence_dp: fills the variable-length array f[0..k+1] with
   * f[i] = f[i-1] + f[i-2] from f[0] = 0, f[1] = 1 and returns f[k].
   * A negative k would make the array too short for f[1].
   */
  method FibSequenceDp(k: int) returns (r: int)
    requires 0 <= k
    ensures r == Fib(k)
    ensures k <= 92 ==> FitsInt64(r)
  {
    var f := new int[k + 2];
    f[0] := 0;
    f[1] := 1;
    var i := 2;
    while i <= k
      invariant 2 <= i <= k + 2
      invariant forall j :: 0 <= j < i ==> f[j] == Fib(j)
    {
      f[i] := f[i - 1] + f[i - 2];
      i := i + 1;
    }
    r := f[k];
    if k <= 92 {
      FibFitsInt64(k);
    }
  }

  // ---------------------------------------------------------------------
  // fib_sequence: fast doubling over the bits of k
  // ---------------------------------------------------------------------

  /** x & m for a mask m that is all zeros (0) or all ones (-1) in two's complement. */
  function AndMask(x: int, m: int): int
    requires m == 0 || m == -1
  {
    if m == -1 then x else 0
  }

  /** ~m: in two's complement, -1 - m. */
  function Complement(m: int): int
  {
    -1 - m
  }

  /**
   * fib_sequence: k < 2 is returned as it is.  Otherwise, walking the bits
   * of k from the top one down, (first, second) = (F(m), F(m + 1)) for the
   * prefix m of k read so far: the doubling step gives F(2m) and F(2m + 1),
   * and the mask `cover_bits = -!!(k & (1 << i))` selects the pair for the
   * next bit without a branch.
   */
  method FibSequence(k: int) returns (r: int)
    requires -0x8000_0000 <= k < 0x8000_0000
    ensures k < 2 ==> r == k
    ensures k >= 0 ==> r == Fib(k)
    ensures 0 <= k <= 92 ==> FitsInt64(r)
  {
    if k < 2 {
      return k;
    }
    var first, second := 0, 1;
    var i: int := 31 - WordClz(k);
    BitLenBounds(k);
    assert i + 1 == BitLen(k);
    ModUnique(k, Pow2(i + 1), 0, k);
    while i >= 0
      invariant -1 <= i < 32
      invariant first == Fib(High(k, i + 1)) && second == Fib(High(k, i + 1) + 1)
    {
      ghost var m := High(k, i + 1);
      DivPow2Step(k, i);
      var t1 := first * (2 * second - first);
      var t2 := first * first + second * second;
      var cover := -(Bit(k, i) as int);
      SequenceStep(m, Bit(k, i), first, second, t1, t2, cover);
      first := AndMask(t1, Complement(cover)) + AndMask(t2, cover);
      second := AndMask(t1, cover) + t2;
      i := i - 1;
    }
    r := first;
    if k <= 92 {
      FibFitsInt64(k);
    }
  }

  /** k >> j: the bits of k from bit j up. */
  function High(k: nat, j: nat): nat
  {
    DivNat(k, Pow2(j));
    k / Pow2(j)
  }

  /**
   * One step of fib_sequence: from (F(m), F(m + 1)) the masks select
   * (F(2m + b), F(2m + b + 1)) for the next bit b.
   */
  lemma {:induction false} SequenceStep(m: nat, b: nat, first: int, second: int, t1: int, t2: int, cover: int)
    requires b < 2 && first == Fib(m) && second == Fib(m + 1)
    requires t1 == first * (2 * second - first) && t2 == first * first + second * second
    requires cover == -(b as int)
    ensures AndMask(t1, Complement(cover)) + AndMask(t2, cover) == Fib(2 * m + b)
    ensures AndMask(t1, cover) + t2 == Fib(2 * m + b + 1)
  {
    FibDoubling(m);
    if b == 1 {
      assert Fib(2 * m + 2) == Fib(2 * m + 1) + Fib(2 * m);
    }
  }

  // ---------------------------------------------------------------------
  // fib_og_bn: iterated bignum addition
  // ---------------------------------------------------------------------

  /**
   * v carrying the sign flag s.  fib_og_bn's headers keep target's sign flag
   * whatever their magnitude, so the invariants pair a flag with a Fibonacci
   * number rather than with a `Num`, whose `SVal` would need the words too.
   */
  function Signed(s: bool, v: nat): int
  {
    if s then -(v as int) else v
  }

  /** A value far from zero fixes the sign flag of its holder. */
  lemma {:induction false} SignOfNonzero(x: Num, s: bool, v: nat)
    requires v > 0 && SVal(x) == Signed(s, v)
    ensures x.sign == s && Mag(x) == v
  {
  }

  /** The three headers of fib_og_bn: well formed, on separate buffers, the two live values canonical. */
  ghost predicate Rotating(fst: Bn, sec: Bn, target: Bn)
    reads fst, sec, target, fst.digits, target.digits
  {
    fst.Valid() && sec.Valid() && target.Valid() &&
    fst.digits != sec.digits && fst.digits != target.digits && sec.digits != target.digits &&
    Canonical(fst.digits[..]) && Canonical(target.digits[..])
  }

  /**
   * One pass of fib_og_bn's loop: swap(sec, target), add(fst, sec, target),
   * swap(fst, sec) takes (F(i - 1), F(i)) in (fst, target) to (F(i), F(i + 1)).
   */
  method OgStep(fst: Bn, sec: Bn, target: Bn, ghost sigma: bool, ghost i: nat)
    requires fst != sec && fst != target && sec != target
    requires Rotating(fst, sec, target) && i >= 1
    requires SVal(fst.Model()) == Signed(sigma, Fib(i - 1))
    requires target.sign == sigma && Mag(target.Model()) == Fib(i)
    modifies fst, sec, target, sec.digits
    ensures Rotating(fst, sec, target)
    ensures fst.digits == old(target.digits) && sec.digits == old(fst.digits)
    ensures target.digits == old(sec.digits) || fresh(target.digits)
    ensures SVal(fst.Model()) == Signed(sigma, Fib(i))
    ensures target.sign == sigma && Mag(target.Model()) == Fib(i + 1)
  {
    Swap(sec, target);
    CanonicalSizeOrdered(fst.digits[..], sec.digits[..]);
    AddCorrect(fst.Model(), sec.Model());
    Add(fst, sec, target);
    Swap(fst, sec);
    FibPositive(i + 1);
    SignOfNonzero(target.Model(), sigma, Fib(i + 1));
  }

  /** fib_og_bn's set-up: fst and sec are new +0 bns of one word, and target's one word becomes 1. */
  method OgSetup(target: Bn) returns (fst: Bn, sec: Bn)
    requires target.Valid() && target.size == 1
    modifies target.digits
    ensures fresh(fst) && fresh(sec) && fresh(fst.digits) && fresh(sec.digits)
    ensures Rotating(fst, sec, target) && target.digits == old(target.digits)
    ensures SVal(fst.Model()) == 0 && Mag(target.Model()) == 1
  {
    fst := new Bn(1);
    sec := new Bn(1);
    target.digits[0] := 1;
    assert target.digits[..] == [1] && Val([1]) == 1;
    ValZeros(1);
  }

  /**
   * fib_og_bn: target is cut to one word; for n < 2 that word is n.
   * Otherwise three headers rotate through F(i - 1), F(i) and F(i + 1) by
   * swaps and one addition per step, each carrying target's sign flag.
   */
  method FibOgBn(target: Bn, n: nat)
    requires target.Valid() && n < 0x1_0000_0000
    modifies target, target.digits
    ensures target.Valid() && Canonical(target.digits[..])
    ensures target.sign == old(target.sign) && Mag(target.Model()) == Fib(n)
  {
    target.Resize(1);
    if n < 2 {
      target.digits[0] := n;
      assert target.digits[..] == [n];
      assert Val([n]) == n;
      return;
    }
    ghost var sigma := target.sign;
    var fst, sec := OgSetup(target);
    var i := 1;
    while i < n
      invariant 1 <= i <= n
      invariant Rotating(fst, sec, target)
      invariant fst.digits == old(target.digits) || fresh(fst.digits)
      invariant sec.digits == old(target.digits) || fresh(sec.digits)
      invariant target.digits == old(target.digits) || fresh(target.digits)
      invariant SVal(fst.Model()) == Signed(sigma, Fib(i - 1))
      invariant target.sign == sigma && Mag(target.Model()) == Fib(i)
      decreases n - i
    {
      OgStep(fst, sec, target, sigma, i);
      i := i + 1;
    }
  }

  // ---------------------------------------------------------------------
  // fib_fdbbn: bignum fast doubling
  // ---------------------------------------------------------------------

  /** What fib_fdbbn's four bns f_k, f_k_next, k and k_next hold. */
  datatype Doubling = Doubling(fk: Num, fkn: Num, k: Num, kn: Num)

  /** After set-up: f_k is target cut to the word 0 (its sign flag kept), f_k_next is 1, k and k_next are +0. */
  function DoublingStart(sign: bool): Doubling
  {
    Doubling(Num([0], sign), Num([1], false), Num([0], false), Num([0], false))
  }

  /**
   * The arithmetic of a pass: k becomes (2·k_next - f_k)·f_k, f_k and
   * f_k_next are squared, and k_next becomes the sum of the two squares.
   */
  function Products(s: Doubling): Doubling
  {
    var f2 := MultNum(s.fk, s.fk);
    var g2 := MultNum(s.fkn, s.fkn);
    Doubling(f2, g2, MultNum(SubNum(LShiftNum(s.kn, 1), s.fk), s.fk), AddNum(f2, g2))
  }

  /** The choice of a pass: the bit picks (k_next, k + k_next) or (k, k_next) as the new (f_k, f_k_next). */
  function Selected(p: Doubling, bit: bool): Doubling
  {
    if bit then p.(fk := p.kn, fkn := AddNum(p.k, p.kn)) else p.(fk := p.k, fkn := p.kn)
  }

  /** One pass of the loop, operation by operation. */
  function DoublingStep(s: Doubling, bit: bool): Doubling
  {
    Selected(Products(s), bit)
  }

  /** The state once bits 31 down to b of n have been consumed. */
  function Doubled(n: nat, sign: bool, b: nat): Doubling
    requires b <= 32
    decreases 32 - b
  {
    if b == 32 then DoublingStart(sign) else DoublingStep(Doubled(n, sign, b + 1), Bit(n, b) == 1)
  }

  /** Four well-formed headers on four buffers (distinct buffers make the headers distinct too). */
  ghost predicate Quad(fk: Bn, fkn: Bn, k: Bn, kn: Bn)
    reads fk, fkn, k, kn
  {
    fk.Valid() && fkn.Valid() && k.Valid() && kn.Valid() &&
    fk.digits != fkn.digits && fk.digits != k.digits && fk.digits != kn.digits &&
    fkn.digits != k.digits && fkn.digits != kn.digits && k.digits != kn.digits
  }

  ghost function State(fk: Bn, fkn: Bn, k: Bn, kn: Bn): Doubling
    reads fk, fkn, k, kn, fk.digits, fkn.digits, k.digits, kn.digits
  {
    Doubling(fk.Model(), fkn.Model(), k.Model(), kn.Model())
  }

  /** k = 2·k_next by copy and lshift; only k changes. */
  method DoublingTwice(fk: Bn, fkn: Bn, k: Bn, kn: Bn)
    requires Quad(fk, fkn, k, kn)
    modifies k, k.digits
    ensures Quad(fk, fkn, k, kn)
    ensures k.digits == old(k.digits) || fresh(k.digits)
    ensures State(fk, fkn, k, kn) == old(State(fk, fkn, k, kn)).(k := LShiftNum(old(kn.Model()), 1))
  {
    Copy(k, kn);
    LShift(k, 1);
  }

  /** k = (k - f_k)·f_k by sub and mult; only k changes. */
  method DoublingTimes(fk: Bn, fkn: Bn, k: Bn, kn: Bn)
    requires Quad(fk, fkn, k, kn)
    modifies k, k.digits
    ensures Quad(fk, fkn, k, kn)
    ensures k.digits == old(k.digits) || fresh(k.digits)
    ensures State(fk, fkn, k, kn) == old(State(fk, fkn, k, kn)).(k := MultNum(SubNum(old(k.Model()), fk.Model()), fk.Model()))
  {
    Sub(k, fk, k);
    Mult(k, fk, k);
  }

  /** k = (2·k_next - f_k)·f_k; only k changes. */
  method DoublingK(fk: Bn, fkn: Bn, k: Bn, kn: Bn)
    requires Quad(fk, fkn, k, kn)
    modifies k, k.digits
    ensures Quad(fk, fkn, k, kn)
    ensures k.digits == old(k.digits) || fresh(k.digits)
    ensures State(fk, fkn, k, kn) ==
      old(State(fk, fkn, k, kn)).(k := MultNum(SubNum(LShiftNum(old(kn.Model()), 1), old(fk.Model())), old(fk.Model())))
  {
    DoublingTwice(fk, fkn, k, kn);
    DoublingTimes(fk, fkn, k, kn);
  }

  /** f_k = f_k² and f_k_next = f_k_next²; k and k_next do not change. */
  method DoublingSquares(fk: Bn, fkn: Bn, k: Bn, kn: Bn)
    requires Quad(fk, fkn, k, kn)
    modifies fk, fk.digits, fkn, fkn.digits
    ensures Quad(fk, fkn, k, kn)
    ensures fk.digits == old(fk.digits) || fresh(fk.digits)
    ensures fkn.digits == old(fkn.digits) || fresh(fkn.digits)
    ensures State(fk, fkn, k, kn) ==
      old(State(fk, fkn, k, kn)).(fk := MultNum(old(fk.Model()), old(fk.Model())), fkn := MultNum(old(fkn.Model()), old(fkn.Model())))
  {
    Mult(fk, fk, fk);
    Mult(fkn, fkn, fkn);
  }

  /** k_next = f_k + f_k_next by copy and add; only k_next changes. */
  method DoublingSum(fk: Bn, fkn: Bn, k: Bn, kn: Bn)
    requires Quad(fk, fkn, k, kn)
    modifies kn, kn.digits
    ensures Quad(fk, fkn, k, kn)
    ensures kn.digits == old(kn.digits) || fresh(kn.digits)
    ensures State(fk, fkn, k, kn) == old(State(fk, fkn, k, kn)).(kn := AddNum(fk.Model(), fkn.Model()))
  {
    Copy(kn, fk);
    Add(kn, fkn, kn);
  }

  /** The arithmetic of a pass: k = (2·k_next - f_k)·f_k, then f_k², f_k_next² and k_next = f_k² + f_k_next². */
  method DoublingProducts(fk: Bn, fkn: Bn, k: Bn, kn: Bn)
    requires Quad(fk, fkn, k, kn)
    modifies fk, fk.digits, fkn, fkn.digits, k, k.digits, kn, kn.digits
    ensures Quad(fk, fkn, k, kn)
    ensures fk.digits == old(fk.digits) || fresh(fk.digits)
    ensures fkn.digits == old(fkn.digits) || fresh(fkn.digits)
    ensures k.digits == old(k.digits) || fresh(k.digits)
    ensures kn.digits == old(kn.digits) || fresh(kn.digits)
    ensures State(fk, fkn, k, kn) == Products(old(State(fk, fkn, k, kn)))
  {
    DoublingK(fk, fkn, k, kn);
    DoublingSquares(fk, fkn, k, kn);
    DoublingSum(fk, fkn, k, kn);
  }

  /** The bit picks the new pair: f_k = k_next and f_k_next = k + k_next, or f_k = k and f_k_next = k_next. */
  method DoublingSelect(fk: Bn, fkn: Bn, k: Bn, kn: Bn, bit: bool)
    requires Quad(fk, fkn, k, kn)
    modifies fk, fk.digits, fkn, fkn.digits
    ensures Quad(fk, fkn, k, kn)
    ensures fk.digits == old(fk.digits) || fresh(fk.digits)
    ensures fkn.digits == old(fkn.digits) || fresh(fkn.digits)
    ensures State(fk, fkn, k, kn) == Selected(old(State(fk, fkn, k, kn)), bit)
  {
    if bit {
      Copy(fk, kn);
      Copy(fkn, k);
      Add(fkn, kn, fkn);
    } else {
      Copy(fk, k);
      Copy(fkn, kn);
    }
  }

  /**
   * A run on n as a proof device: plan[j] is the state once bits 31 down
   * to j have been consumed (plan[32] first), and mids[j] the state between
   * the arithmetic and the choice of the pass for bit j.  Each half of a
   * pass then only moves from one entry to the next, which keeps the
   * bignum arithmetic out of the loop.
   */
  predicate MidLinked(plan: seq<Doubling>, mids: seq<Doubling>, j: nat)
  {
    j < 32 && |plan| == 33 && |mids| == 32 && mids[j] == Products(plan[j + 1])
  }

  predicate EndLinked(plan: seq<Doubling>, mids: seq<Doubling>, n: nat, j: nat)
  {
    j < 32 && |plan| == 33 && |mids| == 32 && plan[j] == Selected(mids[j], Bit(n, j) == 1)
  }

  predicate Planned(plan: seq<Doubling>, mids: seq<Doubling>, n: nat)
  {
    |plan| == 33 && |mids| == 32 &&
    (forall j :: 0 <= j < 32 ==> MidLinked(plan, mids, j)) &&
    (forall j :: 0 <= j < 32 ==> EndLinked(plan, mids, n, j))
  }

  /** The arithmetic of the pass for bit j: from plan[j + 1] to mids[j]. */
  method PlannedProducts(fk: Bn, fkn: Bn, k: Bn, kn: Bn, ghost plan: seq<Doubling>, ghost mids: seq<Doubling>, ghost n: nat, ghost j: nat)
    requires Planned(plan, mids, n) && j < 32
    requires Quad(fk, fkn, k, kn) && State(fk, fkn, k, kn) == plan[j + 1]
    modifies fk, fk.digits, fkn, fkn.digits, k, k.digits, kn, kn.digits
    ensures Quad(fk, fkn, k, kn)
    ensures fk.digits == old(fk.digits) || fresh(fk.digits)
    ensures fkn.digits == old(fkn.digits) || fresh(fkn.digits)
    ensures k.digits == old(k.digits) || fresh(k.digits)
    ensures kn.digits == old(kn.digits) || fresh(kn.digits)
    ensures State(fk, fkn, k, kn) == mids[j]
  {
    assert MidLinked(plan, mids, j);
    DoublingProducts(fk, fkn, k, kn);
  }

  /** The choice of the pass for bit j: from mids[j] to plan[j]. */
  method PlannedSelect(fk: Bn, fkn: Bn, k: Bn, kn: Bn, bit: bool, ghost plan: seq<Doubling>, ghost mids: seq<Doubling>, ghost n: nat, ghost j: nat)
    requires Planned(plan, mids, n) && j < 32 && bit == (Bit(n, j) == 1)
    requires Quad(fk, fkn, k, kn) && State(fk, fkn, k, kn) == mids[j]
    modifies fk, fk.digits, fkn, fkn.digits
    ensures Quad(fk, fkn, k, kn)
    ensures fk.digits == old(fk.digits) || fresh(fk.digits)
    ensures fkn.digits == old(fkn.digits) || fresh(fkn.digits)
    ensures State(fk, fkn, k, kn) == plan[j]
  {
    assert EndLinked(plan, mids, n, j);
    DoublingSelect(fk, fkn, k, kn, bit);
  }

  /** The pass for mask i = 2^(b-1): `n & i` reads bit b - 1, and the state moves from plan[b] to plan[b - 1]. */
  method DoublingRound(fk: Bn, fkn: Bn, k: Bn, kn: Bn, n: nat, i: nat, ghost plan: seq<Doubling>, ghost mids: seq<Doubling>, ghost b: nat)
    requires Planned(plan, mids, n) && 1 <= b <= 32 && i == Pow2(b - 1)
    requires Quad(fk, fkn, k, kn) && State(fk, fkn, k, kn) == plan[b]
    modifies fk, fk.digits, fkn, fkn.digits, k, k.digits, kn, kn.digits
    ensures Quad(fk, fkn, k, kn)
    ensures fk.digits == old(fk.digits) || fresh(fk.digits)
    ensures fkn.digits == old(fkn.digits) || fresh(fkn.digits)
    ensures k.digits == old(k.digits) || fresh(k.digits)
    ensures kn.digits == old(kn.digits) || fresh(kn.digits)
    ensures State(fk, fkn, k, kn) == plan[b - 1]
  {
    PlannedProducts(fk, fkn, k, kn, plan, mids, n, b - 1);
    PlannedSelect(fk, fkn, k, kn, (n / i) % 2 == 1, plan, mids, n, b - 1);
  }

  /** fib_fdbbn's set-up: f_k_next, k and k_next are new one-word bns; f_k's word is 0 and f_k_next's is 1. */
  method DoublingSetup(target: Bn) returns (fkn: Bn, k: Bn, kn: Bn)
    requires target.Valid() && target.size == 1
    modifies target.digits
    ensures fresh(fkn) && fresh(k) && fresh(kn) && fresh(fkn.digits) && fresh(k.digits) && fresh(kn.digits)
    ensures Quad(target, fkn, k, kn) && target.digits == old(target.digits)
    ensures State(target, fkn, k, kn) == DoublingStart(target.sign)
  {
    fkn := new Bn(1);
    target.digits[0] := 0;
    fkn.digits[0] := 1;
    k := new Bn(1);
    kn := new Bn(1);
    assert target.digits[..] == [0] && fkn.digits[..] == [1];
    assert k.digits[..] == [0] && kn.digits[..] == [0];
  }

  /**
   * fib_fdbbn: target is cut to one word; for n < 2 that word is n.
   * Otherwise target serves as f_k and the loop runs once for every bit
   * 1 << 31, 1 << 30, ..., 1 of the 32-bit index, `n & i` telling whether
   * that bit is set.
   */
  method FibFdbbn(target: Bn, n: nat)
    requires target.Valid() && n < 0x1_0000_0000
    modifies target, target.digits
    ensures target.Valid()
    ensures n < 2 ==> target.Model() == Num([n], old(target.sign))
    ensures n >= 2 ==> target.Model() == Doubled(n, old(target.sign), 0).fk
    ensures n >= 2 ==> Mag(target.Model()) == IntDoubled(n, 0).fk
  {
    target.Resize(1);
    if n < 2 {
      target.digits[0] := n;
      assert target.digits[..] == [n];
      return;
    }
    ghost var sigma := target.sign;
    var fkn, k, kn := DoublingSetup(target);
    ghost var plan := DoublingPlan(n, sigma);
    ghost var mids := DoublingMids(plan);
    PlanPlanned(n, sigma);
    DoublingLoop(target, fkn, k, kn, n, plan, mids);
    FdbbnValues(n, sigma);
  }

  /** The loop of fib_fdbbn: the mask i runs over 1 << 31, ..., 1 and each pass consumes the bit `n & i`. */
  method DoublingLoop(fk: Bn, fkn: Bn, k: Bn, kn: Bn, n: nat, ghost plan: seq<Doubling>, ghost mids: seq<Doubling>)
    requires Planned(plan, mids, n) && Quad(fk, fkn, k, kn) && State(fk, fkn, k, kn) == plan[32]
    modifies fk, fk.digits, fkn, fkn.digits, k, k.digits, kn, kn.digits
    ensures Quad(fk, fkn, k, kn)
    ensures State(fk, fkn, k, kn) == plan[0]
  {
    var i: nat := 0x8000_0000;
    ghost var b: nat := 32;
    Pow2Of32();
    while i != 0
      invariant b <= 32 && i == (if b == 0 then 0 else Pow2(b - 1))
      invariant Quad(fk, fkn, k, kn)
      invariant fk.digits == old(fk.digits) || fresh(fk.digits)
      invariant fkn.digits == old(fkn.digits) || fresh(fkn.digits)
      invariant k.digits == old(k.digits) || fresh(k.digits)
      invariant kn.digits == old(kn.digits) || fresh(kn.digits)
      invariant State(fk, fkn, k, kn) == plan[b]
      decreases b
    {
      DoublingRound(fk, fkn, k, kn, n, i, plan, mids, b);
      HalvePow2(b);
      b := b - 1;
      i := i / 2;
    }
  }

  /** The signed values of f_k, f_k_next and k_next. */
  datatype Triple = Triple(fk: int, fkn: int, kn: int)

  function Values(s: Doubling): Triple
  {
    Triple(SVal(s.fk), SVal(s.fkn), SVal(s.kn))
  }

  /** The integer recurrence of fib_fdbbn's loop: k = (2·k_next - f_k)·f_k, k_next = f_k² + f_k_next². */
  function IntStep(s: Triple, bit: bool): Triple
  {
    var k := (2 * s.kn - s.fk) * s.fk;
    var kn := s.fk * s.fk + s.fkn * s.fkn;
    if bit then Triple(kn, k + kn, kn) else Triple(k, kn, kn)
  }

  /** (2·g - f)·f, in the order the loop multiplies. */
  function DoubleTerm(g: int, f: int): int
  {
    (2 * g - f) * f
  }

  function SquareSum(f: int, g: int): int
  {
    f * f + g * g
  }

  function IntDoubled(n: nat, b: nat): Triple
    requires b <= 32
    decreases 32 - b
  {
    if b == 32 then Triple(0, 1, 0) else IntStep(IntDoubled(n, b + 1), Bit(n, b) == 1)
  }

  /** The two additions of a pass whose bn_cmp verdicts are exact. */
  predicate StepExact(s: Doubling, bit: bool)
  {
    var a := LShiftNum(s.kn, 1);
    var k := MultNum(SubNum(a, s.fk), s.fk);
    var kn := AddNum(MultNum(s.fk, s.fk), MultNum(s.fkn, s.fkn));
    (a.sign != s.fk.sign || SizeOrdered(a.digits, s.fk.digits)) &&
    (bit ==> k.sign == kn.sign || SizeOrdered(k.digits, kn.digits))
  }

  predicate WellFormedState(s: Doubling)
  {
    WellFormed(s.fk) && WellFormed(s.fkn) && WellFormed(s.k) && WellFormed(s.kn)
  }

  /** k = (2·k_next - f_k)·f_k in value when bn_add's comparison inside bn_sub is exact. */
  lemma {:induction false} KValue(kn: Num, fk: Num)
    requires WellFormed(kn) && WellFormed(fk)
    requires LShiftNum(kn, 1).sign != fk.sign || SizeOrdered(LShiftNum(kn, 1).digits, fk.digits)
    ensures WellFormed(MultNum(SubNum(LShiftNum(kn, 1), fk), fk))
    ensures SVal(MultNum(SubNum(LShiftNum(kn, 1), fk), fk)) == DoubleTerm(SVal(kn), SVal(fk))
  {
    var a := LShiftNum(kn, 1);
    LShiftCorrect(kn, 1);
    assert |a.digits| >= |kn.digits|;
    assert SVal(a) == 2 * SVal(kn);
    SubCorrect(a, fk);
    var d := SubNum(a, fk);
    assert SVal(d) == 2 * SVal(kn) - SVal(fk);
    MultCorrect(d, fk);
    DoubleTermOf(SVal(MultNum(d, fk)), SVal(d), SVal(kn), SVal(fk));
  }

  lemma {:induction false} DoubleTermOf(p: int, d: int, g: int, f: int)
    requires p == d * f && d == 2 * g - f
    ensures p == DoubleTerm(g, f)
  {
  }

  /** k_next = f_k² + f_k_next²: both squares are nonnegative, so this addition never compares. */
  lemma {:induction false} SquaresValue(fk: Num, fkn: Num)
    ensures Canonical(AddNum(MultNum(fk, fk), MultNum(fkn, fkn)).digits)
    ensures SVal(AddNum(MultNum(fk, fk), MultNum(fkn, fkn))) == SquareSum(SVal(fk), SVal(fkn))
  {
    var f2 := MultNum(fk, fk);
    var g2 := MultNum(fkn, fkn);
    MultCorrect(fk, fk);
    MultCorrect(fkn, fkn);
    AddCorrect(f2, g2);
  }

  /** When bn_cmp is exact where the pass compares, the pass carries out the integer recurrence. */
  lemma {:induction false} DoublingStepValues(s: Doubling, bit: bool)
    requires WellFormedState(s) && StepExact(s, bit)
    ensures WellFormedState(DoublingStep(s, bit))
    ensures Values(DoublingStep(s, bit)) == IntStep(Values(s), bit)
  {
    var k := MultNum(SubNum(LShiftNum(s.kn, 1), s.fk), s.fk);
    var kn := AddNum(MultNum(s.fk, s.fk), MultNum(s.fkn, s.fkn));
    KValue(s.kn, s.fk);
    SquaresValue(s.fk, s.fkn);
    var sum := AddNum(k, kn);
    if bit {
      AddCorrect(k, kn);
    }
    assert Values(DoublingStep(s, bit)) ==
      if bit then Triple(SVal(kn), SVal(sum), SVal(kn)) else Triple(SVal(k), SVal(kn), SVal(kn));
    IntStepOf(SVal(s.fk), SVal(s.fkn), SVal(s.kn), bit, SVal(k), SVal(kn), SVal(sum));
  }

  /** IntStep from the values of k, k_next and their sum. */
  lemma {:induction false} IntStepOf(fk: int, fkn: int, knv: int, bit: bool, k: int, kn: int, sum: int)
    requires k == DoubleTerm(knv, fk) && kn == SquareSum(fk, fkn)
    requires bit ==> sum == k + kn
    ensures IntStep(Triple(fk, fkn, knv), bit) == if bit then Triple(kn, sum, kn) else Triple(k, kn, kn)
  {
  }

  /** Every pass of the run on n compares exactly. */
  predicate RunExact(n: nat, sign: bool, b: nat)
    requires b <= 32
    decreases 32 - b
  {
    b == 32 || (StepExact(Doubled(n, sign, b + 1), Bit(n, b) == 1) && RunExact(n, sign, b + 1))
  }

  lemma DoubledUnfold(n: nat, sign: bool, b: nat)
    requires b < 32
    ensures Doubled(n, sign, b) == DoublingStep(Doubled(n, sign, b + 1), Bit(n, b) == 1)
  {
  }

  /** The states Doubled(n, sign, 0), ..., Doubled(n, sign, 32), in order. */
  ghost function DoublingPlan(n: nat, sign: bool): (plan: seq<Doubling>)
    ensures |plan| == 33 && forall j :: 0 <= j <= 32 ==> plan[j] == Doubled(n, sign, j)
  {
    seq(33, j requires 0 <= j => Doubled(n, sign, if j <= 32 then j else 32))
  }

  /** The states between the arithmetic and the choice of each pass of a plan. */
  ghost function DoublingMids(plan: seq<Doubling>): (mids: seq<Doubling>)
    requires |plan| == 33
    ensures |mids| == 32
  {
    seq(32, j requires 0 <= j < 32 => Mid(plan, j))
  }

  ghost function Mid(plan: seq<Doubling>, j: nat): Doubling
    requires |plan| == 33 && j < 32
  {
    Products(plan[j + 1])
  }

  lemma MidLinkedAt(plan: seq<Doubling>, j: nat)
    requires |plan| == 33 && j < 32
    ensures MidLinked(plan, DoublingMids(plan), j)
  {
    var mids := DoublingMids(plan);
    assert mids[j] == Mid(plan, j);
  }

  lemma EndLinkedAt(n: nat, sign: bool, j: nat)
    requires j < 32
    ensures EndLinked(DoublingPlan(n, sign), DoublingMids(DoublingPlan(n, sign)), n, j)
  {
    var plan := DoublingPlan(n, sign);
    MidLinkedAt(plan, j);
    assert plan[j] == Doubled(n, sign, j) && plan[j + 1] == Doubled(n, sign, j + 1);
    DoubledUnfold(n, sign, j);
  }

  /** fib_fdbbn's run on n follows its plan from DoublingStart to Doubled(n, sign, 0). */
  lemma PlanPlanned(n: nat, sign: bool)
    ensures Planned(DoublingPlan(n, sign), DoublingMids(DoublingPlan(n, sign)), n)
  {
    var plan := DoublingPlan(n, sign);
    forall j | 0 <= j < 32
      ensures MidLinked(plan, DoublingMids(plan), j)
      ensures EndLinked(plan, DoublingMids(plan), n, j)
    {
      MidLinkedAt(plan, j);
      EndLinkedAt(n, sign, j);
    }
  }

  lemma IntDoubledUnfold(n: nat, b: nat)
    requires b < 32
    ensures IntDoubled(n, b) == IntStep(IntDoubled(n, b + 1), Bit(n, b) == 1)
  {
  }

  /** One link of the induction: a state with values t steps to one with values IntStep(t, bit). */
  lemma {:induction false} StepLink(s: Doubling, x: Doubling, t: Triple, u: Triple, bit: bool)
    requires x == DoublingStep(s, bit) && u == IntStep(t, bit)
    requires WellFormedState(s) && Values(s) == t && StepExact(s, bit)
    ensures WellFormedState(x) && Values(x) == u
  {
    DoublingStepValues(s, bit);
  }

  /** With exact comparisons throughout, fib_fdbbn's values follow the integer recurrence. */
  lemma {:induction false} DoubledValues(n: nat, sign: bool, b: nat)
    requires b <= 32 && RunExact(n, sign, b)
    ensures WellFormedState(Doubled(n, sign, b))
    ensures Values(Doubled(n, sign, b)) == IntDoubled(n, b)
    decreases 32 - b
  {
    if b == 32 {
      assert Val([0]) == 0 && Val([1]) == 1;
    } else {
      DoubledValues(n, sign, b + 1);
      DoubledLink(n, sign, b);
    }
  }

  /** The induction step of DoubledValues: bit b carries the values from b + 1 to b. */
  lemma {:induction false} DoubledLink(n: nat, sign: bool, b: nat)
    requires b < 32 && StepExact(Doubled(n, sign, b + 1), Bit(n, b) == 1)
    requires WellFormedState(Doubled(n, sign, b + 1)) && Values(Doubled(n, sign, b + 1)) == IntDoubled(n, b + 1)
    ensures WellFormedState(Doubled(n, sign, b)) && Values(Doubled(n, sign, b)) == IntDoubled(n, b)
  {
    DoubledUnfold(n, sign, b);
    IntDoubledUnfold(n, b);
    StepLink(Doubled(n, sign, b + 1), Doubled(n, sign, b), IntDoubled(n, b + 1), IntDoubled(n, b), Bit(n, b) == 1);
  }

  /** The values of f_k, f_k_next and k_next between passes: 0 <= f_k <= f_k_next, k_next one of the two. */
  predicate Ordered(f: nat, g: nat, kv: nat)
  {
    f <= g && 1 <= g && (f == 0 ==> g == 1) && (kv == f || kv == g)
  }

  /** The word count bn_lshift(x, 1, x) leaves: one more word when the top bit is set. */
  function ShiftedSize(w: seq<Word>): nat
  {
    |w| + (if 1 > ClzWords(w) then 1 else 0)
  }

  /**
   * What fib_fdbbn's headers keep between passes, which makes both bn_cmp
   * calls of the next pass exact: f_k_next and k_next are canonical and
   * nonnegative; f_k is nonnegative unless it is a zero carrying target's
   * sign flag; their values are `Ordered`; and an f_k that keeps a zero
   * top word from bn_mult has no more words than 2·k_next.
   */
  predicate Tracking(s: Doubling)
  {
    WellFormed(s.fk) && WellFormed(s.k) &&
    Canonical(s.fkn.digits) && !s.fkn.sign && Canonical(s.kn.digits) && !s.kn.sign &&
    (s.fk.sign ==> Mag(s.fk) == 0) &&
    Ordered(Mag(s.fk), Mag(s.fkn), Mag(s.kn)) &&
    (Canonical(s.fk.digits) || |s.fk.digits| <= ShiftedSize(s.kn.digits))
  }

  lemma {:induction false} TrackingStart(sign: bool)
    ensures Tracking(DoublingStart(sign))
  {
    assert Val([0]) == 0 && Val([1]) == 1;
  }

  /** 2·k_next is canonical and compares exactly with f_k. */
  lemma {:induction false} ShiftedOrdered(s: Doubling)
    requires Tracking(s)
    ensures Canonical(LShiftNum(s.kn, 1).digits) && !LShiftNum(s.kn, 1).sign
    ensures Mag(LShiftNum(s.kn, 1)) == 2 * Mag(s.kn)
    ensures SizeOrdered(LShiftNum(s.kn, 1).digits, s.fk.digits)
  {
    var a := LShiftNum(s.kn, 1);
    LShiftCorrect(s.kn, 1);
    LShiftCanonical(s.kn, 1);
    assert Pow2(1) == 2;
    if Canonical(s.fk.digits) {
      CanonicalSizeOrdered(a.digits, s.fk.digits);
    }
  }

  /**
   * The integer facts of a pass from ordered values: d = 2·k_next - f_k
   * lies in [f_k, 2·(f_k² + f_k_next²)], and both choices of the pass give
   * ordered values again.
   */
  lemma {:induction false} KBelowSquares(f: nat, g: nat, kv: nat)
    requires Ordered(f, g, kv)
    ensures f <= 2 * kv - f <= 2 * SquareSum(f, g)
    ensures f == 0 ==> 2 * kv - f <= 2
    ensures DoubleTerm(kv, f) >= 0
    ensures Ordered(DoubleTerm(kv, f), SquareSum(f, g), SquareSum(f, g))
    ensures Ordered(SquareSum(f, g), DoubleTerm(kv, f) + SquareSum(f, g), SquareSum(f, g))
  {
    MulLe(1, g, g);
    assert g <= g * g;
    if kv == f {
      assert DoubleTerm(kv, f) == f * f;
    } else {
      GapSquares(f, g);
    }
    if f > 0 {
      MulLe(1, 2 * kv - f, f);
    }
  }

  /** f² + g² - (2g - f)·f = (g - f)² + f² >= 0. */
  lemma {:induction false} GapSquares(f: nat, g: nat)
    requires f <= g
    ensures 0 <= DoubleTerm(g, f) <= SquareSum(f, g)
  {
    var e := g - f;
    assert DoubleTerm(g, f) == (g + e) * f;
    assert SquareSum(f, g) == f * f + (f + e) * (f + e);
    assert (f + e) * (f + e) == f * f + 2 * (e * f) + e * e;
    assert (g + e) * f == f * f + 2 * (e * f);
  }

  /** Bit lengths of a product's factors against 2·v, for d·f <= v. */
  lemma {:induction false} FactorBits(d: nat, f: nat, v: nat)
    requires f <= d && d * f <= v && d <= 2 * v
    ensures BitLen(d) + BitLen(f) <= BitLen(2 * v)
  {
    if f == 0 {
      BitLenMono(d, 2 * v);
    } else {
      var ld, lf := BitLen(d), BitLen(f);
      BitLenBounds(d);
      BitLenBounds(f);
      MulLe(Pow2(ld - 1), d, Pow2(lf - 1));
      MulLe(Pow2(lf - 1), f, d);
      Pow2Add(ld - 1, lf - 1);
      assert Pow2(ld + lf - 1) == 2 * Pow2(ld - 1 + (lf - 1));
      BitLenLower(2 * v, ld + lf - 1);
    }
  }

  /** bn_mult allots at most n words when the bit lengths add up to at most 32n. */
  lemma {:induction false} MultSizeAtMost(x: nat, y: nat, n: nat)
    requires 1 <= n && x + y <= 32 * n
    ensures MultSize(x, y) <= n
  {
  }

  /** d = 2·k_next - f_k in bn_sub, from a tracking state: exact, and negative only as a zero. */
  lemma {:induction false} DifferenceTracked(s: Doubling, d: Num)
    requires Tracking(s) && d == SubNum(LShiftNum(s.kn, 1), s.fk)
    ensures WellFormed(d) && Mag(d) == 2 * Mag(s.kn) - Mag(s.fk)
    ensures d.sign != s.fk.sign ==> Mag(s.fk) == 0
  {
    var a := LShiftNum(s.kn, 1);
    ShiftedOrdered(s);
    SubCorrect(a, s.fk);
    KBelowSquares(Mag(s.fk), Mag(s.fkn), Mag(s.kn));
  }

  /** k = d·f_k: its magnitude, its sign and the words bn_mult gives it. */
  lemma {:induction false} ProductTracked(s: Doubling, d: Num, k: Num)
    requires Tracking(s) && d == SubNum(LShiftNum(s.kn, 1), s.fk) && k == MultNum(d, s.fk)
    ensures WellFormed(k) && (k.sign ==> Mag(s.fk) == 0)
    ensures Mag(k) == DoubleTerm(Mag(s.kn), Mag(s.fk))
    ensures |k.digits| == MultSize(BitLen(2 * Mag(s.kn) - Mag(s.fk)), BitLen(Mag(s.fk)))
  {
    DifferenceTracked(s, d);
    MultCorrect(d, s.fk);
    MsbIsBitLen(d.digits);
    MsbIsBitLen(s.fk.digits);
  }

  /** k_next = f_k² + f_k_next² is canonical and positive. */
  lemma {:induction false} SquaresTracked(s: Doubling, kn: Num)
    requires Tracking(s) && kn == AddNum(MultNum(s.fk, s.fk), MultNum(s.fkn, s.fkn))
    ensures Canonical(kn.digits) && !kn.sign
    ensures Mag(kn) == SquareSum(Mag(s.fk), Mag(s.fkn))
  {
    var f, g := Mag(s.fk), Mag(s.fkn);
    assert SVal(s.fk) == f && SVal(s.fkn) == g;
    SquaresValue(s.fk, s.fkn);
    KBelowSquares(f, g, Mag(s.kn));
  }

  /** 2·v fits in the words of the shifted k_next. */
  lemma {:induction false} ShiftedKnSize(kn: Num)
    ensures BitLen(2 * Mag(kn)) <= 32 * ShiftedSize(kn.digits)
  {
    var a := LShiftNum(kn, 1);
    LShiftCorrect(kn, 1);
    assert Pow2(1) == 2;
    MsbIsBitLen(a.digits);
  }

  /** A product with f = 0 and d <= 2 gets a single word. */
  lemma {:induction false} SmallProductWord(d: nat)
    requires d <= 2
    ensures MultSize(BitLen(d), BitLen(0)) == 1
  {
    assert BitLen(1) == 1 && BitLen(2) == 2;
    BitLenMono(d, 2);
  }

  /** The words of k against those of 2·k_next, from ordered values. */
  lemma {:induction false} KWords(k: Num, kn: Num, f: nat, g: nat, kv: nat)
    requires Ordered(f, g, kv) && Mag(kn) == SquareSum(f, g)
    requires |k.digits| == MultSize(BitLen(2 * kv - f), BitLen(f))
    ensures |k.digits| <= ShiftedSize(kn.digits)
    ensures f == 0 ==> |k.digits| == 1
  {
    KBelowSquares(f, g, kv);
    var d := 2 * kv - f;
    assert d * f == DoubleTerm(kv, f);
    ShiftedKnSize(kn);
    FactorBits(d, f, Mag(kn));
    MultSizeAtMost(BitLen(d), BitLen(f), ShiftedSize(kn.digits));
    if f == 0 {
      SmallProductWord(d);
    }
  }

  /**
   * What the arithmetic of a pass leaves in k and k_next for ordered values
   * f_k = f, f_k_next = g, k_next = kv: k = (2kv - f)·f, negative only as a
   * zero, with bn_mult's word count; k_next = f² + g², canonical and
   * nonnegative.
   */
  predicate Passed(p: Doubling, f: nat, g: nat, kv: nat)
  {
    WellFormed(p.k) && (p.k.sign ==> f == 0) && Mag(p.k) == DoubleTerm(kv, f) &&
    |p.k.digits| == MultSize(BitLen(2 * kv - f), BitLen(f)) &&
    Canonical(p.kn.digits) && !p.kn.sign && Mag(p.kn) == SquareSum(f, g)
  }

  /** The arithmetic of a pass from a tracking state. */
  lemma {:induction false} ProductsPassed(s: Doubling)
    requires Tracking(s)
    ensures Passed(Products(s), Mag(s.fk), Mag(s.fkn), Mag(s.kn))
  {
    var p := Products(s);
    SquaresTracked(s, p.kn);
    ProductTracked(s, SubNum(LShiftNum(s.kn, 1), s.fk), p.k);
  }

  /** From a tracking state both compares of the pass are exact. */
  lemma {:induction false} TrackingExact(s: Doubling, bit: bool)
    requires Tracking(s)
    ensures StepExact(s, bit)
  {
    ShiftedOrdered(s);
    ProductsPassed(s);
    PassedExact(Products(s), Mag(s.fk), Mag(s.fkn), Mag(s.kn));
  }

  /** The compare of k with k_next is exact: only a one-word zero k can carry a sign k_next lacks. */
  lemma {:induction false} PassedExact(p: Doubling, f: nat, g: nat, kv: nat)
    requires Ordered(f, g, kv) && Passed(p, f, g, kv)
    ensures p.k.sign == p.kn.sign || SizeOrdered(p.k.digits, p.kn.digits)
  {
    KWords(p.k, p.kn, f, g, kv);
  }

  /** k + k_next on a set bit: exact, canonical and nonnegative. */
  lemma {:induction false} SumTracked(k: Num, kn: Num)
    requires WellFormed(k) && (k.sign ==> Mag(k) == 0 && |k.digits| == 1)
    requires Canonical(kn.digits) && !kn.sign && Mag(kn) >= 1
    ensures Canonical(AddNum(k, kn).digits) && !AddNum(k, kn).sign
    ensures Mag(AddNum(k, kn)) == Mag(k) + Mag(kn)
  {
    AddCorrect(k, kn);
  }

  /** The choice of a pass keeps the state tracking, given what the arithmetic left in k and k_next. */
  lemma {:induction false} SelectTracked(p: Doubling, f: nat, g: nat, kv: nat, bit: bool)
    requires Ordered(f, g, kv) && Passed(p, f, g, kv)
    ensures Tracking(Selected(p, bit))
  {
    KBelowSquares(f, g, kv);
    KWords(p.k, p.kn, f, g, kv);
    if bit {
      SumTracked(p.k, p.kn);
    }
  }

  /** A pass keeps a tracking state tracking. */
  lemma {:induction false} TrackingStep(s: Doubling, bit: bool)
    requires Tracking(s)
    ensures Tracking(DoublingStep(s, bit))
  {
    ProductsPassed(s);
    SelectTracked(Products(s), Mag(s.fk), Mag(s.fkn), Mag(s.kn), bit);
  }

  /** Every state of the run on n is tracking. */
  lemma {:induction false} RunTracking(n: nat, sign: bool, b: nat)
    requires b <= 32
    ensures Tracking(Doubled(n, sign, b))
    decreases 32 - b
  {
    if b == 32 {
      TrackingStart(sign);
    } else {
      RunTracking(n, sign, b + 1);
      DoubledUnfold(n, sign, b);
      TrackingStep(Doubled(n, sign, b + 1), Bit(n, b) == 1);
    }
  }

  /** Every compare along fib_fdbbn's run is exact, for every n. */
  lemma {:induction false} RunExactHolds(n: nat, sign: bool, b: nat)
    requires b <= 32
    ensures RunExact(n, sign, b)
    decreases 32 - b
  {
    if b < 32 {
      RunTracking(n, sign, b + 1);
      TrackingExact(Doubled(n, sign, b + 1), Bit(n, b) == 1);
      RunExactHolds(n, sign, b + 1);
    }
  }

  /** fib_fdbbn's headers carry the integer recurrence, and f_k's magnitude is its f_k. */
  lemma {:induction false} FdbbnValues(n: nat, sign: bool)
    ensures Values(Doubled(n, sign, 0)) == IntDoubled(n, 0)
    ensures Mag(Doubled(n, sign, 0).fk) == IntDoubled(n, 0).fk
  {
    RunExactHolds(n, sign, 0);
    DoubledValues(n, sign, 0);
    RunTracking(n, sign, 0);
    TrackedMag(Doubled(n, sign, 0), IntDoubled(n, 0));
  }

  /** In a tracking state f_k's magnitude is its value: a sign flag only sits on a zero. */
  lemma {:induction false} TrackedMag(s: Doubling, t: Triple)
    requires Tracking(s) && Values(s) == t
    ensures Mag(s.fk) == t.fk
  {
  }

  /** While only zero bits have been read, the as-written recurrence sits at (0, 1, 1). */
  lemma {:induction false} LeadingZeros(n: nat, b: nat)
    requires b < 32 && n < Pow2(b)
    ensures IntDoubled(n, b) == Triple(0, 1, 1)
    decreases 32 - b
  {
    Pow2Mono(b, b + 1);
    ModUnique(n, Pow2(b), 0, n);
    assert Bit(n, b) == 0;
    if b < 31 {
      LeadingZeros(n, b + 1);
    }
  }

  /**
   * From an aligned state (k_next equal to f_k_next) a pass of the
   * as-written loop doubles correctly; it stays aligned on a zero bit,
   * while on a one bit k_next is left equal to f_k.
   */
  lemma {:induction false} AlignedStep(m: nat, b: nat)
    requires b < 2
    ensures IntStep(Triple(Fib(m), Fib(m + 1), Fib(m + 1)), b == 1) ==
      Triple(Fib(2 * m + b), Fib(2 * m + b + 1), Fib(2 * m + 1))
  {
    DoublingInCOrder(m);
  }

  /** The doubling identities with the operands in the order the loops multiply them. */
  lemma {:induction false} DoublingInCOrder(m: nat)
    ensures (2 * Fib(m + 1) - Fib(m)) * Fib(m) == Fib(2 * m)
    ensures Fib(m) * Fib(m) + Fib(m + 1) * Fib(m + 1) == Fib(2 * m + 1)
    ensures Fib(2 * m + 2) == Fib(2 * m + 1) + Fib(2 * m)
  {
    FibDoubling(m);
    var a, c := Fib(m), Fib(m + 1);
    assert (2 * c - a) * a == a * (2 * c - a);
  }

  /** A zero-bit pass of the as-written loop yields F(2m) exactly when k_next held F(m + 1). */
  lemma {:induction false} AsWrittenStepIff(m: nat, kn: int)
    requires m >= 1
    ensures IntStep(Triple(Fib(m), Fib(m + 1), kn), false).fk == Fib(2 * m) <==> kn == Fib(m + 1)
  {
    FibDoubling(m);
    FibPositive(m);
    CancelFactor(Fib(m), 2 * kn - Fib(m), 2 * Fib(m + 1) - Fib(m));
  }

  lemma {:induction false} CancelFactor(x: int, a: int, c: int)
    requires x > 0
    ensures a * x == x * c <==> a == c
  {
    if a < c {
      assert x * c - a * x == x * (c - a);
      MulAtLeast(x, c - a);
    } else if a > c {
      assert a * x - x * c == x * (a - c);
      MulAtLeast(x, a - c);
    }
  }

  /** 2^j / 2^b = 2^(j - b), so bit b of 2^j is set exactly when b = j. */
  lemma {:induction false} PowerBits(j: nat, b: nat)
    requires b <= j
    ensures High(Pow2(j), b) == Pow2(j - b)
    ensures Bit(Pow2(j), b) == if b == j then 1 else 0
  {
    Pow2Add(b, j - b);
    var q := Pow2(j - b);
    ModUnique(Pow2(j), Pow2(b), q, 0);
    if b < j {
      ModUnique(q, 2, Pow2(j - b - 1), 0);
    } else {
      ModUnique(q, 2, 0, 1);
    }
  }

  /** Below the top bit of 2^j every pass reads a zero, and the as-written loop stays aligned. */
  lemma {:induction false} PowerRun(j: nat, b: nat)
    requires j < 32 && b <= j
    ensures IntDoubled(Pow2(j), b) == Triple(Fib(Pow2(j - b)), Fib(Pow2(j - b) + 1), Fib(Pow2(j - b) + 1))
    decreases j - b
  {
    PowerBits(j, b);
    if b == j {
      if j < 31 {
        LeadingZeros(Pow2(j), j + 1);
      }
      assert Fib(2) == 1;
    } else {
      PowerRun(j, b + 1);
      var m := Pow2(j - (b + 1));
      assert Pow2(j - b) == 2 * m;
      AlignedStep(m, 0);
    }
  }

  /** For n a power of two the as-written loop does give F(n), on integers and on bns. */
  lemma {:induction false} AsWrittenPowersOfTwo(j: nat, sign: bool)
    requires j < 32
    ensures IntDoubled(Pow2(j), 0).fk == Fib(Pow2(j))
    ensures Mag(Doubled(Pow2(j), sign, 0).fk) == Fib(Pow2(j))
  {
    PowerRun(j, 0);
    FdbbnValues(Pow2(j), sign);
  }

  /**
   * For n = 6 the as-written recurrence ends at f_k = 4 while F(6) = 8:
   * after the set bit 1, k_next holds f_k = 2 rather than f_k_next = 3.
   */
  lemma DoublingMisses(sign: bool)
    ensures IntDoubled(6, 1) == Triple(2, 3, 2)
    ensures IntDoubled(6, 0).fk == 4 && Fib(6) == 8
    ensures Mag(Doubled(6, sign, 0).fk) == 4
  {
    SixRun();
    FdbbnValues(6, sign);
  }

  /** The as-written recurrence on n = 6, pass by pass. */
  lemma SixRun()
    ensures IntDoubled(6, 1) == Triple(2, 3, 2)
    ensures IntDoubled(6, 0).fk == 4 && Fib(6) == 8
  {
    assert Pow2(3) == 8;
    LeadingZeros(6, 3);
    SixBits();
    assert IntDoubled(6, 2) == IntStep(Triple(0, 1, 1), true) == Triple(1, 1, 1);
    assert IntDoubled(6, 1) == IntStep(Triple(1, 1, 1), true) == Triple(2, 3, 2);
    assert IntDoubled(6, 0) == IntStep(Triple(2, 3, 2), false);
  }

  /** 6 is 110 in binary. */
  lemma SixBits()
    ensures Bit(6, 2) == 1 && Bit(6, 1) == 1 && Bit(6, 0) == 0
  {
    assert Pow2(0) == 1 && Pow2(1) == 2 && Pow2(2) == 4;
  }

  /** The recurrence the loop evidently intends: k = (2·f_k_next - f_k)·f_k. */
  function FixedStep(s: Triple, bit: bool): Triple
  {
    var k := (2 * s.fkn - s.fk) * s.fk;
    var kn := s.fk * s.fk + s.fkn * s.fkn;
    if bit then Triple(kn, k + kn, kn) else Triple(k, kn, kn)
  }

  function FixedDoubled(n: nat, b: nat): Triple
    requires b <= 32
    decreases 32 - b
  {
    if b == 32 then Triple(0, 1, 0) else FixedStep(FixedDoubled(n, b + 1), Bit(n, b) == 1)
  }

  /** The corrected pass takes (F(m), F(m + 1)) to (F(2m + b), F(2m + b + 1)), whatever k_next held. */
  lemma {:induction false} FixedStepFib(s: Triple, m: nat, b: nat)
    requires b < 2 && s.fk == Fib(m) && s.fkn == Fib(m + 1)
    ensures FixedStep(s, b == 1).fk == Fib(2 * m + b) && FixedStep(s, b == 1).fkn == Fib(2 * m + b + 1)
  {
    DoublingInCOrder(m);
  }

  /** After the bits from 31 down to b the corrected pair is (F(m), F(m + 1)) for the prefix m = n >> b. */
  lemma {:induction false} FixedDoubledTracks(n: nat, b: nat)
    requires n < 0x1_0000_0000 && b <= 32
    ensures FixedDoubled(n, b).fk == Fib(High(n, b)) && FixedDoubled(n, b).fkn == Fib(High(n, b) + 1)
    decreases 32 - b
  {
    if b == 32 {
      Pow2Of32();
      ModUnique(n, Pow2(32), 0, n);
    } else {
      FixedDoubledTracks(n, b + 1);
      DivPow2Step(n, b);
      FixedStepFib(FixedDoubled(n, b + 1), High(n, b + 1), Bit(n, b));
    }
  }

  /** With k seeded from f_k_next, the 32 passes compute F(n) for every 32-bit n. */
  lemma {:induction false} FixedDoublingIsFib(n: nat)
    requires n < 0x1_0000_0000
    ensures FixedDoubled(n, 0).fk == Fib(n) && FixedDoubled(n, 0).fkn == Fib(n + 1)
  {
    FixedDoubledTracks(n, 0);
    assert High(n, 0) == n;
  }

  // ---------------------------------------------------------------------
  // fib_device_lseek
  // ---------------------------------------------------------------------

  /** The position a seek asks for: SEEK_SET, SEEK_CUR, SEEK_END from MAX_LENGTH, anything else 0. */
  function SeekTarget(pos: int, offset: int, orig: int): int
  {
    if orig == 0 then offset
    else if orig == 1 then pos + offset
    else if orig == 2 then MAX_LENGTH - offset
    else 0
  }

  /** The distance between two positions. */
  function Dist(p: int, q: int): nat
  {
    if p < q then q - p else p - q
  }

  /** The requested position pulled into [0, MAX_LENGTH]: the nearest point of that range. */
  function Clamp(p: int): (r: int)
    ensures 0 <= r <= MAX_LENGTH
    ensures forall q :: 0 <= q <= MAX_LENGTH ==> Dist(p, r) <= Dist(p, q)
  {
    if p > MAX_LENGTH then MAX_LENGTH else if p < 0 then 0 else p
  }

  /** An open device file; only the position matters here. */
  class File {
    var pos: int

    constructor ()
      ensures pos == 0
    {
      pos := 0;
    }

    /** fib_device_lseek: the new position is the clamped target, and is returned. */
    method DeviceLseek(offset: int, orig: int) returns (r: int)
      modifies this
      ensures r == Clamp(SeekTarget(old(pos), offset, orig))
      ensures pos == r && 0 <= r <= MAX_LENGTH
    {
      var newPos := 0;
      if orig == 0 {
        newPos := offset;
      } else if orig == 1 {
        newPos := pos + offset;
      } else if orig == 2 {
        newPos := MAX_LENGTH - offset;
      }
      if newPos > MAX_LENGTH {
        newPos := MAX_LENGTH;
      }
      if newPos < 0 {
        newPos := 0;
      }
      pos := newPos;
      return newPos;
    }
  }
}
