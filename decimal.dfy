/**
 * bn_to_string: decimal rendering of a bignum by repeated doubling of a
 * buffer of ASCII digits, one bit at a time from the most significant bit.
 * The digit strings are specified by `DecimalString`, the usual decimal
 * notation without leading zeros.
 */
module Decimal {
  import opened Words
  import opened BnSpec
  import opened Bignum

  function Pow10(k: nat): (r: nat)
    ensures r >= 1
  {
    if k == 0 then 1 else 10 * Pow10(k - 1)
  }

  predicate IsDigit(c: char)
  {
    '0' <= c <= '9'
  }

  predicate AllDigits(t: seq<char>)
  {
    forall k :: 0 <= k < |t| ==> IsDigit(t[k])
  }

  /** The value of an ASCII digit (0 for any other character). */
  function DigitOf(c: char): nat
  {
    if IsDigit(c) then c as int - '0' as int else 0
  }

  function DigitChar(d: nat): (c: char)
    requires d < 10
    ensures IsDigit(c) && DigitOf(c) == d
  {
    ('0' as int + d) as char
  }

  /** The number a string of digits denotes, most significant digit first. */
  function DecVal(t: seq<char>): nat
  {
    if |t| == 0 then 0 else DigitOf(t[0]) * Pow10(|t| - 1) + DecVal(t[1..])
  }

  /** The decimal notation of v: no leading '0', and zero is "0". */
  function DecimalString(v: nat): string
    decreases v
  {
    if v < 10 then [DigitChar(v)] else DecimalString(v / 10) + [DigitChar(v % 10)]
  }

  /** What bn_to_string yields for x: '-' when the sign flag is set, then the magnitude's digits. */
  function Rendered(x: Num): string
  {
    (if x.sign then "-" else "") + DecimalString(Mag(x))
  }

  // ---------------------------------------------------------------------
  // Digit strings
  // ---------------------------------------------------------------------

  lemma {:induction false} DecValBound(t: seq<char>)
    requires AllDigits(t)
    ensures DecVal(t) < Pow10(|t|)
  {
    if |t| > 0 {
      assert AllDigits(t[1..]) by {
        assert forall k :: 0 <= k < |t| - 1 ==> t[1..][k] == t[k + 1];
      }
      DecValBound(t[1..]);
      MulLe(DigitOf(t[0]), 9, Pow10(|t| - 1));
    }
  }

  /** Appending a digit multiplies by ten and adds it. */
  lemma {:induction false} DecValAppend(t: seq<char>, c: char)
    ensures DecVal(t + [c]) == 10 * DecVal(t) + DigitOf(c)
  {
    if |t| == 0 {
      assert ([c])[1..] == [];
    } else {
      assert (t + [c])[1..] == t[1..] + [c];
      DecValAppend(t[1..], c);
      AppendArith(DigitOf(t[0]), Pow10(|t| - 1), DecVal(t[1..]), DigitOf(c));
    }
  }

  lemma {:induction false} AppendArith(d: int, P: int, rest: int, c: int)
    ensures d * (10 * P) + (10 * rest + c) == 10 * (d * P + rest) + c
  {
  }

  /** A string of only '0' digits denotes zero. */
  lemma {:induction false} ZeroDigits(t: seq<char>)
    requires forall k :: 0 <= k < |t| ==> t[k] == '0'
    ensures DecVal(t) == 0
  {
    if |t| > 0 {
      assert forall k :: 0 <= k < |t| - 1 ==> t[1..][k] == t[k + 1];
      ZeroDigits(t[1..]);
    }
  }

  /** DecimalString(v) is a digit string without a leading '0' that denotes v. */
  lemma {:induction false} DecimalStringDenotes(v: nat)
    ensures |DecimalString(v)| >= 1 && AllDigits(DecimalString(v))
    ensures DecVal(DecimalString(v)) == v
    ensures DecimalString(v)[0] != '0' || v == 0
    decreases v
  {
    var r := DecimalString(v);
    if v < 10 {
      assert r[1..] == [];
    } else {
      var h := DecimalString(v / 10);
      DecimalStringDenotes(v / 10);
      DecValAppend(h, DigitChar(v % 10));
      assert r[0] == h[0];
      assert forall k :: 0 <= k < |h| ==> r[k] == h[k];
    }
  }

  /** Conversely, a digit string without a leading '0' is the decimal notation of what it denotes. */
  lemma {:induction false} DecimalStringUnique(t: seq<char>)
    requires |t| >= 1 && AllDigits(t)
    requires t[0] != '0' || |t| == 1
    ensures t == DecimalString(DecVal(t))
    decreases |t|
  {
    var v := DecVal(t);
    if |t| == 1 {
      assert t[1..] == [];
      assert DigitChar(DigitOf(t[0])) == t[0];
    } else {
      var init, last := t[..|t| - 1], t[|t| - 1];
      assert t == init + [last];
      assert AllDigits(init) by {
        assert forall k :: 0 <= k < |init| ==> init[k] == t[k];
      }
      DecValAppend(init, last);
      var u := DecVal(init);
      assert u >= 1 by {
        assert init[0] == t[0];
        MulLe(1, DigitOf(init[0]), Pow10(|init| - 1));
      }
      ModUnique(v, 10, u, DigitOf(last));
      DecimalStringUnique(init);
      assert DigitChar(DigitOf(last)) == last;
    }
  }

  // ---------------------------------------------------------------------
  // The buffer size
  // ---------------------------------------------------------------------

  lemma {:induction false} EightBelowTen(m: nat)
    ensures Pow2(3 * m) <= Pow10(m)
  {
    if m > 0 {
      EightBelowTen(m - 1);
      Pow2Add(3 * (m - 1), 3);
      assert Pow2(3) == 8;
    }
  }

  /**
   * 32·n/3 + 1 digit places hold every value of n words: 2^(32n) is at
   * most 4·8^(32n/3), below 10^(32n/3 + 1).
   */
  lemma {:induction false} BufferSuffices(n: nat)
    ensures WPow(n) <= Pow10(32 * n / 3 + 1)
  {
    var m := 32 * n / 3;
    var r := 32 * n - 3 * m;
    WPowIsPow2(n);
    Pow2Add(3 * m, r);
    EightBelowTen(m);
    Pow2Mono(r, 2);
    assert Pow2(2) == 4;
    MulLe(Pow2(3 * m), Pow10(m), Pow2(r));
    MulLe(Pow2(r), 4, Pow10(m));
  }

  // ---------------------------------------------------------------------
  // bn_to_string
  // ---------------------------------------------------------------------

  /** Combining the new digit and carry with the already doubled low digits. */
  lemma {:induction false} DoubleStep(t: seq<char>, u: seq<char>, c: char, c': char, carry: nat, carry': nat, bit: nat)
    requires |t| == |u|
    requires DecVal(t) + carry * Pow10(|t|) == 2 * DecVal(u) + bit
    requires DigitOf(c') + 10 * carry' == 2 * DigitOf(c) + carry
    ensures DecVal([c'] + t) + carry' * Pow10(|t| + 1) == 2 * DecVal([c] + u) + bit
  {
    assert ([c'] + t)[1..] == t;
    assert ([c] + u)[1..] == u;
    DoubleArith(DigitOf(c), DigitOf(c'), carry, carry', Pow10(|t|), DecVal(t), DecVal(u), bit);
  }

  lemma {:induction false} DoubleArith(d: int, d': int, carry: int, carry': int, P: int, vt: int, vu: int, bit: int)
    requires vt + carry * P == 2 * vu + bit
    requires d' + 10 * carry' == 2 * d + carry
    ensures d' * P + vt + carry' * (10 * P) == 2 * (d * P + vu) + bit
  {
    assert d' * P + carry' * (10 * P) == (2 * d + carry) * P;
  }

  /**
   * The innermost loop of bn_to_string: every digit of s[..L] is doubled,
   * the carry running from the last digit to the first, bit entering at
   * the bottom.
   */
  method Double(s: array<char>, L: nat, bit: nat)
    requires s.Length == L + 1 && bit <= 1 && AllDigits(s[..L])
    requires 2 * DecVal(s[..L]) + bit < Pow10(L)
    modifies s
    ensures AllDigits(s[..L]) && s[L] == old(s[L])
    ensures DecVal(s[..L]) == 2 * old(DecVal(s[..L])) + bit
  {
    ghost var D := s[..L];
    var carry := bit;
    var j := L;
    assert s[L..L] == [] && D[L..L] == [];
    while j > 0
      invariant j <= L && 0 <= carry <= 1
      invariant s[L] == old(s[L])
      invariant s[..j] == D[..j]
      invariant AllDigits(s[j..L])
      invariant DecVal(s[j..L]) + carry * Pow10(L - j) == 2 * DecVal(D[j..L]) + bit
      modifies s
    {
      j := j - 1;
      carry := DoubleDigit(s, j, L, carry, bit, D);
    }
    assert s[0..L] == s[..L] && D[0..L] == D;
    DecValBound(s[..L]);
  }

  /** One pass of the innermost loop: digit j doubled, plus the carry from digit j + 1. */
  method DoubleDigit(s: array<char>, j: nat, L: nat, carry: nat, bit: nat, ghost D: seq<char>) returns (carry': nat)
    requires s.Length == L + 1 && j < L && |D| == L && AllDigits(D) && carry <= 1
    requires s[..j + 1] == D[..j + 1] && AllDigits(s[j + 1..L])
    requires DecVal(s[j + 1..L]) + carry * Pow10(L - (j + 1)) == 2 * DecVal(D[j + 1..L]) + bit
    modifies s
    ensures carry' <= 1 && s[L] == old(s[L])
    ensures s[..j] == D[..j] && AllDigits(s[j..L])
    ensures DecVal(s[j..L]) + carry' * Pow10(L - j) == 2 * DecVal(D[j..L]) + bit
  {
    ghost var before := s[..];
    var c := s[j];
    assert c == D[j] && IsDigit(c);
    s[j] := (c as int + c as int - '0' as int + carry) as char;
    carry' := if s[j] > '9' then 1 else 0;
    if carry' == 1 {
      s[j] := (s[j] as int - 10) as char;
    }
    assert IsDigit(s[j]) && DigitOf(s[j]) + 10 * carry' == 2 * DigitOf(c) + carry;
    DoubleSlices(before, s[..], D, j, L);
    DoubleStep(before[j + 1..L], D[j + 1..L], c, s[j], carry, carry', bit);
  }

  lemma {:induction false} DoubleSlices(before: seq<char>, after: seq<char>, D: seq<char>, j: nat, L: nat)
    requires j < L < |before| && |after| == |before| && |D| == L
    requires forall k :: 0 <= k < |before| && k != j ==> after[k] == before[k]
    ensures after[j..L] == [after[j]] + before[j + 1..L]
    ensures after[..j] == before[..j]
    ensures D[j..L] == [D[j]] + D[j + 1..L]
  {
  }

  lemma {:induction false} DivAtMost(x: nat, d: nat)
    requires d >= 1
    ensures x / d <= x
  {
    DivMod(x, d);
    MulLe(1, d, x / d);
  }

  /** Taking in bit t - 1 of word i, the value of the bits above. */
  lemma {:induction false} NextBit(X: seq<Word>, i: nat, t: nat)
    requires i < |X| && 1 <= t <= 32
    ensures Val(X) / Pow2(32 * i + (t - 1)) == 2 * (Val(X) / Pow2(32 * i + t)) + (X[i] / Pow2(t - 1)) % 2
    ensures Val(X) / Pow2(32 * i + (t - 1)) <= Val(X)
  {
    ValBit(X, i, t - 1);
    DivPow2Step(Val(X), 32 * i + (t - 1));
    DivAtMost(Val(X), Pow2(32 * i + (t - 1)));
  }

  /**
   * The bit loop of bn_to_string for word i: each bit, from bit 31 down,
   * doubles the digits and enters at the bottom.  The digits then hold the
   * value of words i and above.
   */
  method AbsorbWord(x: Bn, i: nat, s: array<char>, L: nat)
    requires x.Valid() && i < x.size && s.Length == L + 1
    requires AllDigits(s[..L]) && Val(x.digits[..]) < Pow10(L)
    requires DecVal(s[..L]) == Val(x.digits[..]) / Pow2(32 * i + 32)
    modifies s
    ensures AllDigits(s[..L]) && s[L] == old(s[L])
    ensures DecVal(s[..L]) == Val(x.digits[..]) / Pow2(32 * i)
  {
    ghost var X := x.digits[..];
    ghost var V := Val(X);
    var d: nat := 0x8000_0000;
    ghost var t: nat := 32;
    Pow2Of32();
    while d > 0
      invariant t <= 32 && d == (if t == 0 then 0 else Pow2(t - 1))
      invariant AllDigits(s[..L]) && s[L] == old(s[L])
      invariant DecVal(s[..L]) == V / Pow2(32 * i + t)
      decreases d
    {
      var carry := (x.digits[i] as int / d) % 2;
      NextBit(X, i, t);
      Double(s, L, carry);
      HalvePow2(t);
      d := d / 2;
      t := t - 1;
    }
  }

  /**
   * The leading-zero skip of bn_to_string: p moves past each '0' that is
   * not the last digit.  What remains is the decimal notation of the value.
   */
  method SkipZeros(s: array<char>, L: nat) returns (p: nat)
    requires s.Length == L + 1 && L >= 1 && AllDigits(s[..L]) && s[L] == '\0'
    ensures p < L && s[p..L] == DecimalString(DecVal(s[..L]))
    ensures L >= 2 && DecVal(s[..L]) < Pow10(L - 1) ==> p >= 1
  {
    p := 0;
    assert s[0..L] == s[..L];
    while s[p] == '0' && s[p + 1] != '\0'
      invariant p < L && DecVal(s[p..L]) == DecVal(s[..L])
      decreases L - p
    {
      assert s[p..L][1..] == s[p + 1..L];
      p := p + 1;
    }
    ghost var t := s[p..L];
    DigitsFrom(s[..L], p);
    assert t[0] == s[p];
    assert p + 1 < L ==> IsDigit(s[..L][p + 1]);
    DecimalStringUnique(t);
    if p == 0 && L >= 2 {
      LeadingDigit(s[..L]);
    }
  }

  /** A leading digit other than '0' makes the value at least 10^(length - 1). */
  lemma {:induction false} LeadingDigit(t: seq<char>)
    requires |t| >= 1 && IsDigit(t[0]) && t[0] != '0'
    ensures DecVal(t) >= Pow10(|t| - 1)
  {
    MulLe(1, DigitOf(t[0]), Pow10(|t| - 1));
  }

  lemma {:induction false} DigitsFrom(t: seq<char>, p: nat)
    requires AllDigits(t) && p <= |t|
    ensures AllDigits(t[p..])
  {
    assert forall k :: 0 <= k < |t| - p ==> t[p..][k] == t[p + k];
  }

  /** memmove(s, s + p, n) toward the front: the first n characters become those from p. */
  method MoveDown(s: array<char>, p: nat, n: nat)
    requires p + n <= s.Length
    modifies s
    ensures s[..n] == old(s[p..p + n])
  {
    var k := 0;
    while k < n
      invariant k <= n
      invariant forall m :: 0 <= m < k ==> s[m] == old(s[p + m])
      invariant forall m :: k <= m < s.Length ==> s[m] == old(s[m])
    {
      s[k] := s[p + k];
      k := k + 1;
    }
  }

  /** memset(s, '0', n). */
  method FillZeros(s: array<char>, n: nat)
    requires n <= s.Length
    modifies s
    ensures forall m :: 0 <= m < n ==> s[m] == '0'
    ensures AllDigits(s[..n]) && DecVal(s[..n]) == 0
  {
    var k := 0;
    while k < n
      invariant k <= n
      invariant forall m :: 0 <= m < k ==> s[m] == '0'
    {
      s[k] := '0';
      k := k + 1;
    }
    ZeroDigits(s[..n]);
  }

  /** The word loop of bn_to_string: from the top word down, every word's bits are absorbed. */
  method AbsorbAll(x: Bn, s: array<char>, L: nat)
    requires x.Valid() && s.Length == L + 1
    requires AllDigits(s[..L]) && DecVal(s[..L]) == 0 && s[L] == '\0'
    requires Val(x.digits[..]) < Pow10(L)
    modifies s
    ensures AllDigits(s[..L]) && s[L] == '\0'
    ensures DecVal(s[..L]) == Val(x.digits[..])
  {
    ghost var V := Val(x.digits[..]);
    ValBound(x.digits[..]);
    WPowIsPow2(x.size);
    ModUnique(V, Pow2(32 * x.size), 0, V);
    var i: nat := x.size;
    while i > 0
      invariant i <= x.size
      invariant AllDigits(s[..L]) && s[L] == '\0'
      invariant DecVal(s[..L]) == V / Pow2(32 * i)
    {
      i := i - 1;
      AbsorbWord(x, i, s, L);
    }
    assert Pow2(32 * i) == 1;
    assert V / Pow2(32 * i) == V;
  }

  /** bn_to_string: the decimal rendering of x, '-' first when x's sign is set. */
  method ToString(x: Bn) returns (r: string)
    requires x.Valid()
    ensures r == Rendered(x.Model())
  {
    ghost var V := Val(x.digits[..]);
    var len := (32 * x.size) / 3 + 2 + (if x.sign then 1 else 0);
    var s := new char[len];
    var L := len - 1;
    FillZeros(s, L);
    s[L] := '\0';
    ValBound(x.digits[..]);
    RoomForDigits(x.size, V, L, x.sign);
    AbsorbAll(x, s, L);
    var p := SkipZeros(s, L);
    ghost var digits := s[p..L];
    if x.sign {
      p := p - 1;
      s[p] := '-';
      assert s[p..L] == ['-'] + digits;
    }
    var n := L - p;  // strlen(p): the characters before the terminator at L
    MoveDown(s, p, n + 1);
    r := s[..n];
  }

  /** The buffer leaves room for every digit, and one place more when the sign must be written. */
  lemma {:induction false} RoomForDigits(n: nat, V: nat, L: nat, sign: bool)
    requires n >= 1 && V < WPow(n) && L == 32 * n / 3 + 1 + (if sign then 1 else 0)
    ensures L >= 2 && V < Pow10(L) && (sign ==> V < Pow10(L - 1))
  {
    BufferSuffices(n);
    assert Pow10(L) >= Pow10(L - 1);
  }
}
