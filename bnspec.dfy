/**
 * The bignum operations of bn.h as functions on values.  A `Num` is what a
 * `bn` holds: its digit words (least significant first; the word count is
 * `|digits|`) and its sign flag.  Each function gives exactly the words,
 * size and sign the C routine leaves in its destination, including the
 * cases in which that result is not the arithmetic one; the lemmas below
 * say when it is.
 */
module BnSpec {
  import opened Words

  datatype Num = Num(digits: seq<Word>, sign: bool)

  /** |x| */
  function Mag(x: Num): nat
  {
    Val(x.digits)
  }

  /** The signed value; a set sign flag negates the magnitude. */
  function SVal(x: Num): int
  {
    if x.sign then -(Mag(x) as int) else Mag(x)
  }

  /** Every `bn` has at least one word. */
  predicate WellFormed(x: Num)
  {
    |x.digits| >= 1
  }

  /** No superfluous zero word above the value. */
  predicate Canonical(s: seq<Word>)
  {
    |s| >= 1 && (|s| == 1 || s[|s| - 1] != 0)
  }

  predicate NoNegZero(x: Num)
  {
    x.sign ==> Mag(x) != 0
  }

  function Max(a: int, b: int): int
  {
    if a > b then a else b
  }

  function DivRoundUp(x: nat, len: nat): nat
    requires len > 0
  {
    (x + len - 1) / len
  }

  function Sign(x: int): int
  {
    if x > 0 then 1 else if x < 0 then -1 else 0
  }

  // ---------------------------------------------------------------------
  // bn_clz, bn_msb
  // ---------------------------------------------------------------------

  /** 32 for every zero word scanned from the top, then the clz of the first nonzero word. */
  function ClzWords(s: seq<Word>): (r: nat)
    ensures r <= 32 * |s|
  {
    if |s| == 0 then 0
    else if s[|s| - 1] != 0 then WordClz(s[|s| - 1])
    else 32 + ClzWords(s[..|s| - 1])
  }

  function MsbWords(s: seq<Word>): nat
  {
    32 * |s| - ClzWords(s)
  }

  /** bn_msb is the bit length of the magnitude. */
  lemma {:induction false} MsbIsBitLen(s: seq<Word>)
    ensures MsbWords(s) == BitLen(Val(s))
  {
    if |s| > 0 {
      var n := |s| - 1;
      var p, top := s[..n], s[n];
      ValTop(s);
      if top != 0 {
        ValBound(p);
        WPowIsPow2(n);
        BitLenShift(Val(p), top, 32 * n);
        WordBitLen(top);
      } else {
        MsbIsBitLen(p);
      }
    }
  }

  /** bn_clz counts every bit exactly when the number is zero. */
  lemma ClzAllZero(s: seq<Word>)
    ensures ClzWords(s) == 32 * |s| <==> Val(s) == 0
  {
    MsbIsBitLen(s);
  }

  // ---------------------------------------------------------------------
  // Canonical form
  // ---------------------------------------------------------------------

  /** The top word is nonzero exactly when the value needs all the words. */
  lemma {:induction false} TopWordNonzero(s: seq<Word>)
    requires |s| >= 1
    ensures s[|s| - 1] != 0 <==> Val(s) >= WPow(|s| - 1)
  {
    ValTop(s);
    ValBound(s[..|s| - 1]);
    if s[|s| - 1] != 0 {
      MulLe(1, s[|s| - 1], WPow(|s| - 1));
    }
  }

  // ---------------------------------------------------------------------
  // bn_resize
  // ---------------------------------------------------------------------

  /** The words after krealloc to n words and zero-filling the new high words. */
  function Resized(s: seq<Word>, n: nat): seq<Word>
  {
    if n == |s| then s
    else if n > |s| then s + Zeros(n - |s|)
    else s[..n]
  }

  lemma {:induction false} ResizedValue(s: seq<Word>, n: nat)
    ensures |Resized(s, n)| == n
    ensures n >= |s| ==> Val(Resized(s, n)) == Val(s)
    ensures n < |s| ==> Val(Resized(s, n)) == Val(s) % WPow(n)
    ensures forall j :: 0 <= j < n && j < |s| ==> Resized(s, n)[j] == s[j]
    ensures forall j :: |s| <= j < n ==> Resized(s, n)[j] == 0
  {
    if n > |s| {
      ValZeroExtend(s, n - |s|);
    } else if n < |s| {
      ValTruncate(s, n);
    }
  }

  /** Growing and shrinking back restores the original words. */
  lemma GrowShrink(s: seq<Word>, n: nat)
    requires n >= |s|
    ensures Resized(Resized(s, n), |s|) == s
  {
    if n > |s| {
      assert (s + Zeros(n - |s|))[..|s|] == s;
    }
  }

  // ---------------------------------------------------------------------
  // bn_cmp
  // ---------------------------------------------------------------------

  /** bn_cmp: the word counts first, the magnitudes only for equal counts. */
  function CmpWords(a: seq<Word>, b: seq<Word>): int
  {
    if |a| > |b| then 1
    else if |a| < |b| then -1
    else Sign(Val(a) - Val(b))
  }

  /** The word counts do not mislead bn_cmp: the longer operand has a nonzero top word. */
  predicate SizeOrdered(a: seq<Word>, b: seq<Word>)
  {
    |a| >= 1 && |b| >= 1 &&
    (|a| == |b| || (|a| > |b| && a[|a| - 1] != 0) || (|b| > |a| && b[|b| - 1] != 0))
  }

  lemma {:induction false} CmpExact(a: seq<Word>, b: seq<Word>)
    requires SizeOrdered(a, b)
    ensures CmpWords(a, b) == Sign(Val(a) - Val(b))
  {
    if |a| > |b| {
      TopWordNonzero(a);
      ValBound(b);
      WPowMono(|b|, |a| - 1);
    } else if |b| > |a| {
      TopWordNonzero(b);
      ValBound(a);
      WPowMono(|a|, |b| - 1);
    }
  }

  lemma CanonicalSizeOrdered(a: seq<Word>, b: seq<Word>)
    requires Canonical(a) && Canonical(b)
    ensures SizeOrdered(a, b)
  {
  }

  /** With a superfluous zero word bn_cmp reports 0 as larger than 1. */
  lemma CmpMisordersLeadingZero()
    ensures Val([0, 0]) < Val([1])
    ensures CmpWords([0, 0], [1]) == 1
  {
    assert [0, 0][1..] == [0];
    assert [0][1..] == [];
    assert [1][1..] == [];
  }

  // ---------------------------------------------------------------------
  // bn_do_add
  // ---------------------------------------------------------------------

  /** Words needed by bn_do_add before canonicalisation. */
  function AddSize(a: seq<Word>, b: seq<Word>): (d: nat)
    ensures d >= 1
  {
    DivRoundUp(Max(MsbWords(a), MsbWords(b)) + 1, 32)
  }

  /** The words bn_do_add leaves in c (the sign of c is not touched). */
  function DoAddWords(a: seq<Word>, b: seq<Word>): seq<Word>
  {
    DropTop(ToWords(Val(a) + Val(b), AddSize(a, b)))
  }

  /** One zero top word is given back, unless it is the only word. */
  function DropTop(w: seq<Word>): seq<Word>
    requires |w| >= 1
  {
    if w[|w| - 1] == 0 && |w| > 1 then w[..|w| - 1] else w
  }

  /** Both operands stay below 2^L for the larger bit length L. */
  lemma {:induction false} BelowMaxBits(a: seq<Word>, b: seq<Word>)
    ensures Val(a) < Pow2(Max(MsbWords(a), MsbWords(b)))
    ensures Val(b) < Pow2(Max(MsbWords(a), MsbWords(b)))
    ensures Max(MsbWords(a), MsbWords(b)) > 0 ==>
              Pow2(Max(MsbWords(a), MsbWords(b)) - 1) <= Val(a) + Val(b)
  {
    var L := Max(MsbWords(a), MsbWords(b));
    MsbIsBitLen(a);
    MsbIsBitLen(b);
    BitLenBounds(Val(a));
    BitLenBounds(Val(b));
    Pow2Mono(BitLen(Val(a)), L);
    Pow2Mono(BitLen(Val(b)), L);
  }

  /** The sum fits in the words bn_do_add allots. */
  lemma {:induction false} AddFits(a: seq<Word>, b: seq<Word>)
    ensures Val(a) + Val(b) < WPow(AddSize(a, b))
  {
    var d := AddSize(a, b);
    var L := Max(MsbWords(a), MsbWords(b));
    BelowMaxBits(a, b);
    assert L + 1 <= 32 * d;
    assert Pow2(L + 1) == 2 * Pow2(L);
    Pow2Mono(L + 1, 32 * d);
    WPowIsPow2(d);
  }

  lemma {:induction false} DoAddCorrect(a: seq<Word>, b: seq<Word>)
    ensures Val(DoAddWords(a, b)) == Val(a) + Val(b)
    ensures Canonical(DoAddWords(a, b))
  {
    var d := AddSize(a, b);
    var sum := Val(a) + Val(b);
    AddFits(a, b);
    ModUnique(sum, WPow(d), 0, sum);
    var w := ToWords(sum, d);
    assert Val(w) == sum;
    DropTopKeeps(w, a, b);
  }

  /** Dropping the zero top word of the d words of the sum keeps its value and leaves no zero top. */
  lemma {:induction false} DropTopKeeps(w: seq<Word>, a: seq<Word>, b: seq<Word>)
    requires |w| == AddSize(a, b) && Val(w) == Val(a) + Val(b)
    ensures Val(DropTop(w)) == Val(w) && Canonical(DropTop(w))
  {
    var d := |w|;
    if w[d - 1] == 0 && d > 1 {
      var p := w[..d - 1];
      ValTop(w);
      if d - 1 >= 2 {
        AddTopSurvives(a, b);
        TopWordNonzero(p);
      }
    }
  }

  /** After dropping one zero word, the sum still needs all d - 1 words. */
  lemma {:induction false} AddTopSurvives(a: seq<Word>, b: seq<Word>)
    requires AddSize(a, b) >= 3
    ensures Val(a) + Val(b) >= WPow(AddSize(a, b) - 2)
  {
    var d := AddSize(a, b);
    var L := Max(MsbWords(a), MsbWords(b));
    assert 32 * (d - 1) <= L;
    BelowMaxBits(a, b);
    Pow2Mono(32 * (d - 2), L - 1);
    WPowIsPow2(d - 2);
  }

  // ---------------------------------------------------------------------
  // bn_do_sub
  // ---------------------------------------------------------------------

  /** Drops the zero words that bn_clz finds on top, keeping at least one word. */
  function StripZeros(w: seq<Word>): (r: seq<Word>)
    requires |w| >= 1
  {
    var z := ClzWords(w) / 32;
    var d := if z == |w| then z - 1 else z;
    w[..|w| - d]
  }

  lemma {:induction false} StripCorrect(w: seq<Word>)
    requires |w| >= 1
    ensures Val(StripZeros(w)) == Val(w)
    ensures Canonical(StripZeros(w))
  {
    var n := |w|;
    if w[n - 1] != 0 {
      WordBitLen(w[n - 1]);
      assert w[..n] == w;
    } else if n == 1 {
      assert w[..1] == w;
    } else {
      var p := w[..n - 1];
      ValTop(w);
      StripCorrect(p);
      var zp := ClzWords(p) / 32;
      assert ClzWords(w) / 32 == 1 + zp;
      if zp == |p| {
        assert StripZeros(w) == w[..1] == p[..1];
      } else {
        assert StripZeros(w) == w[..n - 1 - zp] == p[..|p| - zp];
      }
      assert StripZeros(w) == StripZeros(p);
    }
  }

  /** The words bn_do_sub leaves in c: |a| - |b| modulo BASE^max(size), stripped. */
  function DoSubWords(a: seq<Word>, b: seq<Word>): seq<Word>
  {
    var d := Max(|a|, |b|);
    if d == 0 then [0]
    else StripZeros(ToWords((Val(a) - Val(b)) % WPow(d), d))
  }

  lemma {:induction false} DoSubCorrect(a: seq<Word>, b: seq<Word>)
    requires |a| >= 1 && |b| >= 1
    ensures Canonical(DoSubWords(a, b))
    ensures Val(DoSubWords(a, b)) == (Val(a) - Val(b)) % WPow(Max(|a|, |b|))
    ensures Val(a) >= Val(b) ==> Val(DoSubWords(a, b)) == Val(a) - Val(b)
  {
    var d := Max(|a|, |b|);
    var v := (Val(a) - Val(b)) % WPow(d);
    StripCorrect(ToWords(v, d));
    ModUnique(v, WPow(d), 0, v);
    if Val(a) >= Val(b) {
      ValBound(a);
      WPowMono(|a|, d);
      ModUnique(Val(a) - Val(b), WPow(d), 0, Val(a) - Val(b));
    }
  }

  // ---------------------------------------------------------------------
  // bn_add, bn_sub
  // ---------------------------------------------------------------------

  /** bn_add: equal signs add magnitudes; otherwise the smaller magnitude (by bn_cmp) is subtracted. */
  function AddNum(a: Num, b: Num): Num
  {
    if a.sign == b.sign then Num(DoAddWords(a.digits, b.digits), a.sign)
    else
      var p := if a.sign then b else a;  // the nonnegative operand
      var q := if a.sign then a else b;
      var c := CmpWords(p.digits, q.digits);
      if c > 0 then Num(DoSubWords(p.digits, q.digits), false)
      else if c < 0 then Num(DoSubWords(q.digits, p.digits), true)
      else Num([0], false)
  }

  /** The operand of bn_sub's struct copy: b with its sign flipped. */
  function Negated(b: Num): Num
  {
    Num(b.digits, !b.sign)
  }

  /** bn_sub is bn_add of the negated second operand. */
  function SubNum(a: Num, b: Num): Num
  {
    AddNum(a, Negated(b))
  }

  /** When bn_cmp is not misled, bn_add computes the signed sum, canonically. */
  lemma {:induction false} AddCorrect(a: Num, b: Num)
    requires WellFormed(a) && WellFormed(b)
    requires a.sign == b.sign || SizeOrdered(a.digits, b.digits)
    ensures SVal(AddNum(a, b)) == SVal(a) + SVal(b)
    ensures Canonical(AddNum(a, b).digits)
    ensures NoNegZero(a) && NoNegZero(b) ==> NoNegZero(AddNum(a, b))
  {
    if a.sign == b.sign {
      DoAddCorrect(a.digits, b.digits);
    } else {
      var p := if a.sign then b else a;
      var q := if a.sign then a else b;
      SubByCmp(p.digits, q.digits);
      assert SVal(a) + SVal(b) == Mag(p) - Mag(q);
    }
  }

  /** The subtraction bn_add picks by bn_cmp's verdict yields |p| - |q| in magnitude and sign. */
  lemma {:induction false} SubByCmp(p: seq<Word>, q: seq<Word>)
    requires SizeOrdered(p, q)
    ensures CmpWords(p, q) > 0 ==>
      Val(DoSubWords(p, q)) == Val(p) - Val(q) > 0 && Canonical(DoSubWords(p, q))
    ensures CmpWords(p, q) < 0 ==>
      Val(DoSubWords(q, p)) == Val(q) - Val(p) > 0 && Canonical(DoSubWords(q, p))
    ensures CmpWords(p, q) == 0 ==> Val(p) == Val(q)
  {
    CmpExact(p, q);
    var c := CmpWords(p, q);
    if c > 0 {
      DoSubCorrect(p, q);
    } else if c < 0 {
      DoSubCorrect(q, p);
    }
  }

  lemma {:induction false} SubCorrect(a: Num, b: Num)
    requires WellFormed(a) && WellFormed(b)
    requires a.sign != b.sign || SizeOrdered(a.digits, b.digits)
    ensures SVal(SubNum(a, b)) == SVal(a) - SVal(b)
    ensures Canonical(SubNum(a, b).digits)
    ensures NoNegZero(a) && Mag(b) != 0 ==> NoNegZero(SubNum(a, b))
  {
    AddCorrect(a, Negated(b));
  }

  /** Opposite signs and equal words give the canonical, nonnegative zero. */
  lemma AddNegationIsZero(a: Num)
    ensures AddNum(a, Negated(a)) == Num([0], false)
  {
  }

  /** bn_add picks its operands by sign, not by position, and bn_do_add is symmetric: the order never matters. */
  lemma AddCommutes(a: Num, b: Num)
    ensures AddNum(a, b) == AddNum(b, a)
  {
  }

  /** A wrong bn_cmp verdict makes bn_add return negative zero: 5 + (-5 with a zero top word). */
  lemma AddMisledByLeadingZero()
    ensures SVal(Num([5], false)) + SVal(Num([5, 0], true)) == 0
    ensures AddNum(Num([5], false), Num([5, 0], true)) == Num([0], true)
  {
    var w := ToWords(0, 2);
    assert Val([5, 0]) == 5 by {
      assert [5, 0][1..] == [0];
      assert [0][1..] == [];
    }
    assert Val([5]) == 5 by {
      assert [5][1..] == [];
    }
    assert w == ToWords(0, 2) == [0, 0];
    assert ClzWords([0, 0]) == 64 by {
      assert [0, 0][..1] == [0];
      assert [0][..0] == [];
    }
    assert StripZeros([0, 0]) == [0];
  }

  // ---------------------------------------------------------------------
  // bn_mult
  // ---------------------------------------------------------------------

  /** Words bn_mult gives c: ceil((msb a + msb b) / 32), at least one. */
  function MultSize(ma: nat, mb: nat): (d: nat)
    ensures d >= 1
  {
    DivRoundUp(ma + mb, 32) + (if ma + mb == 0 then 1 else 0)
  }

  function MultNum(a: Num, b: Num): Num
  {
    var d := MultSize(MsbWords(a.digits), MsbWords(b.digits));
    Num(ToWords(Mag(a) * Mag(b), d), a.sign != b.sign)
  }

  lemma {:induction false} MulLt(a: nat, b: nat, c: nat, d: nat)
    requires a < c && b < d
    ensures a * b < c * d
  {
    MulLe(a, c - 1, b);
    MulLe(b, d - 1, c);
    assert (c - 1) * b <= c * b - b;
    assert c * b == b * c;
    assert (d - 1) * c == d * c - c;
  }

  /** The product fits in 2^(msb a + msb b). */
  lemma {:induction false} ProductBits(x: nat, y: nat)
    ensures x * y < Pow2(BitLen(x) + BitLen(y))
  {
    BitLenBounds(x);
    BitLenBounds(y);
    MulLt(x, y, Pow2(BitLen(x)), Pow2(BitLen(y)));
    Pow2Add(BitLen(x), BitLen(y));
  }

  lemma {:induction false} SignedMul(x: int, y: int)
    ensures (-x) * y == -(x * y) && x * (-y) == -(x * y) && (-x) * (-y) == x * y
  {
  }

  /** The product fits in the words bn_mult allots. */
  lemma {:induction false} MultFits(a: Num, b: Num)
    ensures Mag(a) * Mag(b) < WPow(MultSize(MsbWords(a.digits), MsbWords(b.digits)))
  {
    var x, y := Mag(a), Mag(b);
    MsbIsBitLen(a.digits);
    MsbIsBitLen(b.digits);
    var d := MultSize(BitLen(x), BitLen(y));
    ProductBits(x, y);
    Pow2Mono(BitLen(x) + BitLen(y), 32 * d);
    WPowIsPow2(d);
  }

  /** |c| = |a|·|b| and the sign is the exclusive or of the signs. */
  lemma {:induction false} MultCorrect(a: Num, b: Num)
    ensures Mag(MultNum(a, b)) == Mag(a) * Mag(b)
    ensures MultNum(a, b).sign == (a.sign != b.sign)
    ensures SVal(MultNum(a, b)) == SVal(a) * SVal(b)
    ensures WellFormed(MultNum(a, b))
  {
    MultMag(a, b);
    SignedProduct(a.sign, b.sign, Mag(a), Mag(b));
  }

  /** The d words bn_mult sizes its result to hold the whole product. */
  lemma {:induction false} MultMag(a: Num, b: Num)
    ensures Mag(MultNum(a, b)) == Mag(a) * Mag(b)
  {
    MultFits(a, b);
    ToWordsFits(Mag(a) * Mag(b), MultSize(MsbWords(a.digits), MsbWords(b.digits)));
  }

  /** The sign rule of a product, on plain integers. */
  lemma {:induction false} SignedProduct(sa: bool, sb: bool, x: int, y: int)
    ensures (if sa != sb then -(x * y) else x * y) == (if sa then -x else x) * (if sb then -y else y)
  {
    SignedMul(x, y);
  }

  /** The product can keep a zero top word: 2^32 · 0 comes out as two zero words. */
  lemma MultLeavesZeroTop()
    ensures MultNum(Num([0, 1], false), Num([0], false)).digits == [0, 0]
    ensures !Canonical(MultNum(Num([0, 1], false), Num([0], false)).digits)
  {
    assert [0, 1][..1] == [0];
    assert [0][..0] == [];
    assert BitLen(1) == 1;
    assert ClzWords([0, 1]) == 31;
    assert ClzWords([0]) == 32;
    assert MultSize(33, 0) == 2;
    assert Val([0]) == 0 by {
      assert [0][1..] == [];
    }
    assert ToWords(0, 2) == [0, 0];
  }

  // ---------------------------------------------------------------------
  // bn_lshift (destination == source)
  // ---------------------------------------------------------------------

  /** bn_lshift(x, shift, x): a shift of 32k is a no-op; otherwise one more word iff shift % 32 > clz. */
  function LShiftNum(x: Num, shift: nat): Num
  {
    var s := shift % 32;
    if s == 0 then x
    else
      var n := |x.digits| + (if s > ClzWords(x.digits) then 1 else 0);
      Num(ToWords(Mag(x) * Pow2(s), n), x.sign)
  }

  /** x·2^s fits in n words when BitLen(x) + s <= 32n. */
  lemma {:induction false} ShiftFits(x: nat, s: nat, n: nat)
    requires BitLen(x) + s <= 32 * n
    ensures x * Pow2(s) < WPow(n)
  {
    var L := BitLen(x);
    BitLenBounds(x);
    MulLe(x + 1, Pow2(L), Pow2(s));
    assert (x + 1) * Pow2(s) == x * Pow2(s) + Pow2(s);
    Pow2Add(L, s);
    Pow2Mono(L + s, 32 * n);
    WPowIsPow2(n);
  }

  lemma {:induction false} LShiftCorrect(x: Num, shift: nat)
    ensures Mag(LShiftNum(x, shift)) == Mag(x) * Pow2(shift % 32)
    ensures LShiftNum(x, shift).sign == x.sign
    ensures |LShiftNum(x, shift).digits| ==
            |x.digits| + (if shift % 32 != 0 && shift % 32 > ClzWords(x.digits) then 1 else 0)
  {
    var s := shift % 32;
    if s != 0 {
      ShiftKeepsBits(x, s);
    } else {
      assert Pow2(0) == 1;
    }
  }

  /** A shift by 0 < s < 32 loses no bit of the magnitude. */
  lemma {:induction false} ShiftKeepsBits(x: Num, s: nat)
    requires 0 < s < 32
    ensures Val(ToWords(Mag(x) * Pow2(s), |x.digits| + (if s > ClzWords(x.digits) then 1 else 0))) == Mag(x) * Pow2(s)
  {
    var n := |x.digits| + (if s > ClzWords(x.digits) then 1 else 0);
    MsbIsBitLen(x.digits);
    ShiftFits(Mag(x), s, n);
    var v := Mag(x) * Pow2(s);
    ModUnique(v, WPow(n), 0, v);
  }

  /** x·2^s reaches BASE^n once BitLen(x) - 1 + s >= 32n. */
  lemma {:induction false} ShiftReaches(x: nat, s: nat, n: nat)
    requires x > 0 && 32 * n <= BitLen(x) - 1 + s
    ensures x * Pow2(s) >= WPow(n)
  {
    var L := BitLen(x);
    BitLenBounds(x);
    MulLe(Pow2(L - 1), x, Pow2(s));
    Pow2Add(L - 1, s);
    Pow2Mono(32 * n, L - 1 + s);
    WPowIsPow2(n);
  }

  lemma {:induction false} LShiftCanonical(x: Num, shift: nat)
    requires Canonical(x.digits)
    ensures Canonical(LShiftNum(x, shift).digits)
  {
    var s := shift % 32;
    LShiftCorrect(x, shift);
    if s != 0 {
      var y := LShiftNum(x, shift);
      if s > ClzWords(x.digits) {
        GrownTop(x.digits, y.digits, s);
      } else {
        KeptTop(x.digits, y.digits, s);
      }
    }
  }

  /** When the shift adds a word, the bits pushed out of the old top word land in it. */
  lemma {:induction false} GrownTop(xd: seq<Word>, yd: seq<Word>, s: nat)
    requires 0 < s < 32 && Canonical(xd) && s > ClzWords(xd)
    requires |yd| == |xd| + 1 && Val(yd) == Val(xd) * Pow2(s)
    ensures Canonical(yd)
  {
    MsbIsBitLen(xd);
    ShiftReaches(Val(xd), s, |xd|);
    TopWordNonzero(yd);
  }

  /** When it does not, a nonzero top word stays nonzero: the value only grows. */
  lemma {:induction false} KeptTop(xd: seq<Word>, yd: seq<Word>, s: nat)
    requires Canonical(xd) && |yd| == |xd| && Val(yd) == Val(xd) * Pow2(s)
    ensures Canonical(yd)
  {
    if |xd| > 1 {
      TopWordNonzero(xd);
      MulLe(1, Pow2(s), Val(xd));
      TopWordNonzero(yd);
    }
  }


}
