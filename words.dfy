/**
 * Machine words, powers of two and the numeric value of a bignum's digit
 * array.  A bignum keeps its magnitude as 32-bit `unsigned int` words, least
 * significant first; `Val` is the number those words stand for.
 */
module Words {

  const BASE: nat := 0x1_0000_0000

  /** One `unsigned int` digit of a bignum. */
  type Word = x: int | 0 <= x < 0x1_0000_0000

  function Pow2(e: nat): (r: nat)
    ensures r >= 1
  {
    if e == 0 then 1 else 2 * Pow2(e - 1)
  }

  /** Euclidean division of a natural number by a positive one stays natural. */
  lemma {:induction false} DivNat(k: nat, p: nat)
    requires p >= 1
    ensures k / p >= 0
  {
  }

  /** BASE^k, the weight of word k. */
  function WPow(k: nat): (r: nat)
    ensures r >= 1
  {
    if k == 0 then 1 else BASE * WPow(k - 1)
  }

  /** The magnitude denoted by a little-endian word sequence. */
  function Val(s: seq<Word>): nat
  {
    if |s| == 0 then 0 else s[0] + BASE * Val(s[1..])
  }

  function Zeros(n: nat): (r: seq<Word>)
    ensures |r| == n
    ensures forall i :: 0 <= i < n ==> r[i] == 0
  {
    seq(n, _ => 0)
  }

  /** Number of bits needed to write x (0 for 0). */
  function BitLen(x: nat): nat
  {
    if x == 0 then 0 else 1 + BitLen(x / 2)
  }

  /** `__builtin_clz` of a nonzero 32-bit word. */
  function WordClz(w: Word): nat
  {
    WordBitLen(w);
    32 - BitLen(w)
  }

  /** Bit i of x, that is `!!(x & (1 << i))`. */
  function Bit(x: nat, i: nat): nat
  {
    (x / Pow2(i)) % 2
  }

  // ---------------------------------------------------------------------
  // Division and powers
  // ---------------------------------------------------------------------

  lemma {:induction false} MulAtLeast(d: int, e: int)
    requires d > 0 && e >= 1
    ensures d * e >= d
  {
    assert d * e == d * (e - 1) + d;
    assert d * (e - 1) >= 0;
  }

  lemma {:induction false} ModUnique(v: int, d: int, q: int, r: int)
    requires d > 0 && 0 <= r < d && v == d * q + r
    ensures v / d == q && v % d == r
  {
    var q', r' := v / d, v % d;
    assert v == d * q' + r';
    assert d * q - d * q' == r' - r;
    assert d * (q - q') == r' - r;
    if q - q' >= 1 {
      MulAtLeast(d, q - q');
    } else if q' - q >= 1 {
      MulAtLeast(d, q' - q);
    }
  }

  lemma {:induction false} DivMod(x: int, d: int)
    requires d > 0
    ensures x == d * (x / d) + x % d && 0 <= x % d < d
  {
  }

  lemma {:induction false} DivDiv(x: nat, a: nat, b: nat)
    requires a > 0 && b > 0
    ensures x / (a * b) == (x / a) / b
  {
    var q := (x / a) / b;
    var r := (x / a) % b;
    assert x == a * (x / a) + x % a;
    assert x / a == b * q + r;
    assert x == (a * b) * q + (a * r + x % a) by {
      assert a * (b * q + r) == (a * b) * q + a * r;
    }
    assert a * r + x % a < a * b by {
      assert a * r <= a * (b - 1);
    }
    ModUnique(x, a * b, q, a * r + x % a);
  }

  lemma {:induction false} Pow2Add(a: nat, b: nat)
    ensures Pow2(a + b) == Pow2(a) * Pow2(b)
  {
    if a > 0 {
      Pow2Add(a - 1, b);
      assert Pow2(a + b) == 2 * Pow2(a - 1 + b);
    }
  }

  lemma {:induction false} Pow2Of32()
    ensures Pow2(32) == BASE
  {
    assert Pow2(2) == 4;
    Pow2Add(2, 2);
    Pow2Add(4, 4);
    Pow2Add(8, 8);
    Pow2Add(16, 16);
  }

  lemma {:induction false} WPowIsPow2(k: nat)
    ensures WPow(k) == Pow2(32 * k)
  {
    if k > 0 {
      WPowIsPow2(k - 1);
      Pow2Of32();
      Pow2Add(32, 32 * (k - 1));
    }
  }

  lemma {:induction false} WPowAdd(a: nat, b: nat)
    ensures WPow(a + b) == WPow(a) * WPow(b)
  {
    if a > 0 {
      WPowAdd(a - 1, b);
      assert WPow(a + b) == BASE * WPow(a - 1 + b);
    }
  }

  lemma {:induction false} WPowMono(a: nat, b: nat)
    requires a <= b
    ensures WPow(a) <= WPow(b)
  {
    WPowAdd(a, b - a);
  }

  lemma {:induction false} Pow2Mono(a: nat, b: nat)
    requires a <= b
    ensures Pow2(a) <= Pow2(b)
  {
    Pow2Add(a, b - a);
  }

  /** Halving 2^(t-1), as a right shift by one of a single-bit mask. */
  lemma {:induction false} HalvePow2(t: nat)
    requires t >= 1
    ensures Pow2(t - 1) / 2 == if t == 1 then 0 else Pow2(t - 2)
  {
    if t > 1 {
      assert Pow2(t - 1) == 2 * Pow2(t - 2);
    }
  }

  /** Peeling one bit: x / 2^t is twice x / 2^(t+1) plus bit t. */
  lemma {:induction false} DivPow2Step(x: nat, t: nat)
    ensures x / Pow2(t) == 2 * (x / Pow2(t + 1)) + Bit(x, t)
  {
    assert Pow2(t + 1) == Pow2(t) * 2;
    DivDiv(x, Pow2(t), 2);
  }

  // ---------------------------------------------------------------------
  // Bit length
  // ---------------------------------------------------------------------

  lemma {:induction false} BitLenUpper(x: nat, k: nat)
    requires x < Pow2(k)
    ensures BitLen(x) <= k
  {
    if x > 0 {
      BitLenUpper(x / 2, k - 1);
    }
  }

  lemma {:induction false} BitLenLower(x: nat, k: nat)
    requires Pow2(k) <= x
    ensures k < BitLen(x)
  {
    if k > 0 {
      BitLenLower(x / 2, k - 1);
    }
  }

  lemma {:induction false} BitLenBounds(x: nat)
    ensures x < Pow2(BitLen(x))
    ensures x > 0 ==> Pow2(BitLen(x) - 1) <= x
  {
    if x > 0 {
      BitLenBounds(x / 2);
    }
  }


  lemma {:induction false} WordBitLen(w: Word)
    ensures BitLen(w) <= 32
  {
    Pow2Of32();
    BitLenUpper(w, 32);
  }

  lemma {:induction false} BitLenMono(x: nat, y: nat)
    requires x <= y
    ensures BitLen(x) <= BitLen(y)
  {
    BitLenBounds(y);
    BitLenUpper(x, BitLen(y));
  }

  lemma {:induction false} MulLe(a: int, b: int, c: int)
    requires a <= b && c >= 0
    ensures a * c <= b * c
  {
    assert b * c - a * c == (b - a) * c;
  }

  lemma {:induction false} ShiftedBelow(x: nat, w: nat, P: nat, Q: nat)
    requires x < P && w < Q
    ensures x + w * P < Q * P
  {
    MulLe(w, Q - 1, P);
    assert (Q - 1) * P == Q * P - P;
  }

  /** Putting a nonzero word w above k low bits gives k + BitLen(w) bits. */
  lemma {:induction false} BitLenShift(x: nat, w: nat, k: nat)
    requires x < Pow2(k) && w > 0
    ensures BitLen(x + w * Pow2(k)) == k + BitLen(w)
  {
    BitLenBounds(w);
    ShiftBelow(x, w, k);
    ShiftAbove(x, w, k);
  }

  lemma {:induction false} ShiftBelow(x: nat, w: nat, k: nat)
    requires x < Pow2(k) && w > 0
    ensures BitLen(x + w * Pow2(k)) <= k + BitLen(w)
  {
    var L := BitLen(w);
    var P, Q := Pow2(k), Pow2(L);
    BitLenBounds(w);
    ShiftedBelow(x, w, P, Q);
    Pow2Add(k, L);
    BitLenUpper(x + w * P, k + L);
  }

  lemma {:induction false} ShiftAbove(x: nat, w: nat, k: nat)
    requires w > 0
    ensures k + BitLen(w) - 1 < BitLen(x + w * Pow2(k))
  {
    var L := BitLen(w);
    var P := Pow2(k);
    BitLenBounds(w);
    assert L >= 1;
    var Q1 := Pow2(L - 1);
    MulLe(Q1, w, P);
    Pow2Add(k, L - 1);
    assert P * Q1 == Q1 * P;
    BitLenLower(x + w * P, k + (L - 1));
  }

  // ---------------------------------------------------------------------
  // Value of word sequences
  // ---------------------------------------------------------------------

  lemma {:induction false} ValBound(s: seq<Word>)
    ensures Val(s) < WPow(|s|)
  {
    if |s| > 0 {
      ValBound(s[1..]);
      assert BASE * Val(s[1..]) <= BASE * (WPow(|s| - 1) - 1);
    }
  }

  lemma {:induction false} ValSplit(s: seq<Word>, k: nat)
    requires k <= |s|
    ensures Val(s) == Val(s[..k]) + WPow(k) * Val(s[k..])
  {
    if k == 0 {
      assert s[0..] == s;
    } else {
      var t := s[1..];
      ValSplit(t, k - 1);
      assert s[..k][1..] == t[..k - 1];
      assert s[k..] == t[k - 1..];
      assert Val(s[..k]) == s[0] + BASE * Val(t[..k - 1]);
      assert Val(s) == s[0] + BASE * Val(t);
      Distribute(BASE, Val(t[..k - 1]), WPow(k - 1), Val(t[k - 1..]));
    }
  }

  lemma {:induction false} Distribute(b: int, x: int, w: int, y: int)
    ensures b * (x + w * y) == b * x + (b * w) * y
  {
  }

  /** The top word of s weighs BASE^(|s|-1). */
  lemma {:induction false} ValTop(s: seq<Word>)
    requires |s| >= 1
    ensures Val(s) == Val(s[..|s| - 1]) + s[|s| - 1] * WPow(|s| - 1)
  {
    var n := |s| - 1;
    ValSplit(s, n);
    assert s[n..] == [s[n]];
    assert Val([s[n]]) == s[n] + BASE * Val([s[n]][1..]);
    assert [s[n]][1..] == [];
    assert Val(s[n..]) == s[n];
  }

  lemma {:induction false} ValAppend(s: seq<Word>, w: Word)
    ensures Val(s + [w]) == Val(s) + w * WPow(|s|)
  {
    ValTop(s + [w]);
    assert (s + [w])[..|s|] == s;
  }

  lemma {:induction false} ValUpdate(s: seq<Word>, i: nat, w: Word)
    requires i < |s|
    ensures Val(s[i := w]) + s[i] * WPow(i) == Val(s) + w * WPow(i)
  {
    var u := s[i := w];
    assert Val(u) == u[0] + BASE * Val(u[1..]);
    assert Val(s) == s[0] + BASE * Val(s[1..]);
    if i == 0 {
      assert u[1..] == s[1..];
    } else {
      ValUpdate(s[1..], i - 1, w);
      assert u[1..] == s[1..][i - 1 := w];
      UpdateArith(Val(u[1..]), Val(s[1..]), s[i], w, WPow(i - 1));
    }
  }

  lemma {:induction false} UpdateArith(p: int, q: int, x: int, y: int, W: int)
    requires p + x * W == q + y * W
    ensures BASE * p + x * (BASE * W) == BASE * q + y * (BASE * W)
  {
    assert BASE * (p + x * W) == BASE * (q + y * W);
  }

  lemma {:induction false} ValZeros(n: nat)
    ensures Val(Zeros(n)) == 0
  {
    if n > 0 {
      assert Zeros(n)[1..] == Zeros(n - 1);
      ValZeros(n - 1);
    }
  }

  lemma {:induction false} ValZeroExtend(s: seq<Word>, n: nat)
    ensures Val(s + Zeros(n)) == Val(s)
  {
    ValSplit(s + Zeros(n), |s|);
    assert (s + Zeros(n))[..|s|] == s;
    assert (s + Zeros(n))[|s|..] == Zeros(n);
    ValZeros(n);
  }

  /** Keeping the low k words reduces the value modulo BASE^k. */
  lemma {:induction false} ValTruncate(s: seq<Word>, k: nat)
    requires k <= |s|
    ensures Val(s[..k]) == Val(s) % WPow(k)
  {
    ValSplit(s, k);
    ValBound(s[..k]);
    ModUnique(Val(s), WPow(k), Val(s[k..]), Val(s[..k]));
  }

  lemma {:induction false} ValInjective(s: seq<Word>, t: seq<Word>)
    requires |s| == |t| && Val(s) == Val(t)
    ensures s == t
  {
    if |s| > 0 {
      ModUnique(Val(s), BASE, Val(s[1..]), s[0]);
      ModUnique(Val(t), BASE, Val(t[1..]), t[0]);
      ValInjective(s[1..], t[1..]);
      assert s == [s[0]] + s[1..];
      assert t == [t[0]] + t[1..];
    }
  }



  // ---------------------------------------------------------------------
  // Digits of a number
  // ---------------------------------------------------------------------

  lemma {:induction false} ModSplit(v: nat, m: nat)
    requires m > 0
    ensures v % (BASE * m) == v % BASE + BASE * ((v / BASE) % m)
  {
    var q := v / BASE;
    assert v == BASE * q + v % BASE;
    assert q == m * (q / m) + q % m;
    assert v == (BASE * m) * (q / m) + (v % BASE + BASE * (q % m)) by {
      assert BASE * q == (BASE * m) * (q / m) + BASE * (q % m);
    }
    assert BASE * (q % m) <= BASE * (m - 1);
    ModUnique(v, BASE * m, q / m, v % BASE + BASE * (q % m));
  }

  /** Bit b of word i is bit 32·i + b of the value. */
  lemma {:induction false} ValBit(s: seq<Word>, i: nat, b: nat)
    requires i < |s| && b < 32
    ensures Bit(Val(s), 32 * i + b) == Bit(s[i], b)
  {
    var v, P := Val(s), Pow2(32 * i);
    ValSplit(s, i);
    ValBound(s[..i]);
    WPowIsPow2(i);
    ModUnique(v, P, Val(s[i..]), Val(s[..i]));
    Pow2Add(32 * i, b);
    DivDiv(v, P, Pow2(b));
    assert s[i..][1..] == s[i + 1..];
    WordBit(s[i], Val(s[i + 1..]), b);
  }

  /** Below its 32 bits, a word plus BASE·R has the bits of the word. */
  lemma {:induction false} WordBit(w: Word, R: nat, b: nat)
    requires b < 32
    ensures Bit(w + BASE * R, b) == Bit(w, b)
  {
    var B, H := Pow2(b), Pow2(31 - b);
    Pow2Add(b, 32 - b);
    Pow2Of32();
    assert Pow2(32 - b) == 2 * H;
    var q, r := w / B, w % B;
    var h, e := q / 2, q % 2;
    DivMod(w, B);
    DivMod(q, 2);
    WordBitArith(w, R, B, H, q, r, h, e);
    ModUnique(w + BASE * R, B, 2 * (H * R) + q, r);
    ModUnique(2 * (H * R) + q, 2, H * R + h, e);
  }

  lemma {:induction false} WordBitArith(w: int, R: int, B: int, H: int, q: int, r: int, h: int, e: int)
    requires B * (2 * H) == BASE && w == B * q + r && q == 2 * h + e
    ensures w + BASE * R == B * (2 * (H * R) + q) + r
    ensures 2 * (H * R) + q == 2 * (H * R + h) + e
  {
    assert BASE * R == B * (2 * (H * R));
  }

  /** The n words that hold v modulo BASE^n: what storing v into n words keeps. */
  function ToWords(v: nat, n: nat): (r: seq<Word>)
    ensures |r| == n
    ensures Val(r) == v % WPow(n)
  {
    if n == 0 then []
    else
      var rest := ToWords(v / BASE, n - 1);
      ModSplit(v, WPow(n - 1));
      assert ([v % BASE] + rest)[1..] == rest;
      [v % BASE] + rest
  }


  /** A value that fits in n words is stored whole. */
  lemma {:induction false} ToWordsFits(v: nat, n: nat)
    requires v < WPow(n)
    ensures Val(ToWords(v, n)) == v
  {
    ModUnique(v, WPow(n), 0, v);
  }

  /** Words of equal length and equal value modulo BASE^n are the same words. */
  lemma {:induction false} ToWordsUnique(s: seq<Word>, v: nat)
    requires Val(s) == v % WPow(|s|)
    ensures s == ToWords(v, |s|)
  {
    ValInjective(ToWords(v, |s|), s);
  }
}
