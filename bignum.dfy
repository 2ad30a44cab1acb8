/**
 * The `bn` structure of bn.h and its routines, imperatively: a heap object
 * whose `digits` buffer the routines reallocate, overwrite and swap.  Every
 * routine is specified by the value-level function of BnSpec that says what
 * the destination holds afterwards.
 */
module Bignum {
  import opened Words
  import opened BnSpec

  class Bn {
    var digits: array<Word>
    var size: nat
    var sign: bool

    /** `size` counts the words of the buffer, and there is at least one. */
    ghost predicate Valid()
      reads this
    {
      size == digits.Length && size >= 1
    }

    ghost function Model(): Num
      reads this, digits
    {
      Num(digits[..], sign)
    }

    /** bn_alloc: `n` zero words, sign clear (+0). */
    constructor (n: nat)
      requires n >= 1
      ensures Valid() && fresh(digits)
      ensures Model() == Num(Zeros(n), false)
    {
      digits := new Word[n](_ => 0);
      size := n;
      sign := false;
      new;
      assert digits[..] == Zeros(n);
    }

    /** The struct copy `bn tmp = *b` of bn_sub: a second header on the same words. */
    constructor Alias(d: array<Word>, n: nat, s: bool)
      ensures digits == d && size == n && sign == s
    {
      digits := d;
      size := n;
      sign := s;
    }

    /**
     * bn_resize to a nonzero size: the same size keeps the buffer; otherwise
     * a new buffer keeps the low words and zero-fills the new high words.
     */
    method Resize(n: nat)
      requires Valid() && n >= 1
      modifies this
      ensures Valid() && size == n && sign == old(sign)
      ensures digits[..] == Resized(old(digits[..]), n)
      ensures n == old(size) ==> digits == old(digits)
      ensures n != old(size) ==> fresh(digits)
    {
      if n == size {
        return;
      }
      var words := new Word[n];
      var i := 0;
      while i < n
        modifies words
        invariant 0 <= i <= n
        invariant forall j :: 0 <= j < i ==> words[j] == (if j < size then digits[j] else 0)
      {
        words[i] := if i < size then digits[i] else 0;
        i := i + 1;
      }
      ghost var old_words := digits[..];
      ResizedValue(old_words, n);
      assert words[..] == Resized(old_words, n);
      digits := words;
      size := n;
    }

    /** bn_clz: 32 per zero word from the top, then the clz of the first nonzero word. */
    method Clz() returns (r: nat)
      requires Valid()
      ensures r == ClzWords(digits[..])
    {
      ghost var s := digits[..];
      var count := 0;
      var i: int := size - 1;
      assert s[..i + 1] == s;
      while i >= 0
        invariant -1 <= i < size
        invariant ClzWords(s) == count + ClzWords(s[..i + 1])
      {
        assert s[..i + 1][..i] == s[..i];
        if digits[i] != 0 {
          count := count + WordClz(digits[i]);
          return count;
        } else {
          count := count + 32;
        }
        i := i - 1;
      }
      assert s[..0] == [];
      return count;
    }

    /** bn_msb: the number of bits of the magnitude. */
    method Msb() returns (r: nat)
      requires Valid()
      ensures r == MsbWords(digits[..])
      ensures r == BitLen(Val(digits[..]))
    {
      var z := Clz();
      r := size * 32 - z;
      MsbIsBitLen(digits[..]);
    }
  }

  /** bn_copy: dest takes src's size, sign and words; src keeps its value. */
  method Copy(dest: Bn, src: Bn)
    requires dest.Valid() && src.Valid()
    modifies dest, dest.digits
    ensures dest.Valid()
    ensures dest.digits == old(dest.digits) || fresh(dest.digits)
    ensures dest.Model() == old(src.Model())
    ensures src.Model() == old(src.Model())
  {
    ghost var S := src.digits[..];
    dest.Resize(src.size);
    dest.sign := src.sign;
    var i := 0;
    while i < src.size
      modifies dest.digits
      invariant 0 <= i <= src.size == dest.size == |S|
      invariant src.digits[..] == S
      invariant forall j :: 0 <= j < i ==> dest.digits[j] == S[j]
    {
      dest.digits[i] := src.digits[i];
      i := i + 1;
    }
    assert dest.digits[..] == S;
  }

  /** bn_swap: the two headers trade size, sign and buffer. */
  method Swap(a: Bn, b: Bn)
    modifies a, b
    ensures a.digits == old(b.digits) && a.size == old(b.size) && a.sign == old(b.sign)
    ensures b.digits == old(a.digits) && b.size == old(a.size) && b.sign == old(a.sign)
  {
    var d, n, s := a.digits, a.size, a.sign;
    a.digits, a.size, a.sign := b.digits, b.size, b.sign;
    b.digits, b.size, b.sign := d, n, s;
  }

  /** A larger high part outweighs any low part of k words. */
  lemma {:induction false} HighPartDecides(s: seq<Word>, t: seq<Word>, k: nat)
    requires |s| == |t| && k <= |s|
    requires Val(s[k..]) > Val(t[k..])
    ensures Val(s) > Val(t)
  {
    ValSplit(s, k);
    ValSplit(t, k);
    ValBound(t[..k]);
    OutweighLow(Val(s[..k]), Val(t[..k]), Val(s[k..]), Val(t[k..]), WPow(k));
  }

  lemma {:induction false} OutweighLow(ls: nat, lt: nat, hs: nat, ht: nat, W: nat)
    requires lt < W && hs > ht
    ensures ls + W * hs > lt + W * ht
  {
    MulLe(ht + 1, hs, W);
    assert (ht + 1) * W == ht * W + W;
  }

  /** Equal-length words that agree above k and differ at k are ordered by word k. */
  lemma {:induction false} HighWordDecides(s: seq<Word>, t: seq<Word>, k: nat)
    requires |s| == |t| && k < |s|
    requires forall j :: k < j < |s| ==> s[j] == t[j]
    requires s[k] > t[k]
    ensures Val(s) > Val(t)
  {
    assert s[k + 1..] == t[k + 1..];
    assert s[k..][1..] == s[k + 1..];
    assert t[k..][1..] == t[k + 1..];
    assert Val(s[k..]) == s[k] + BASE * Val(s[k + 1..]);
    assert Val(t[k..]) == t[k] + BASE * Val(s[k + 1..]);
    HighPartDecides(s, t, k);
  }

  /** bn_cmp: the word counts first, then the words from the top. */
  method Cmp(a: Bn, b: Bn) returns (r: int)
    requires a.Valid() && b.Valid()
    ensures r == CmpWords(a.digits[..], b.digits[..])
  {
    if a.size > b.size {
      return 1;
    } else if a.size < b.size {
      return -1;
    }
    ghost var s, t := a.digits[..], b.digits[..];
    var i: int := a.size - 1;
    while i >= 0
      invariant -1 <= i < a.size
      invariant forall j :: i < j < |s| ==> s[j] == t[j]
    {
      if a.digits[i] > b.digits[i] {
        HighWordDecides(s, t, i);
        return 1;
      }
      if a.digits[i] < b.digits[i] {
        HighWordDecides(t, s, i);
        return -1;
      }
      i := i - 1;
    }
    assert s == t;
    return 0;
  }

  // ---------------------------------------------------------------------
  // bn_do_add, bn_do_sub, bn_add, bn_sub
  // ---------------------------------------------------------------------

  /** Word j of s and 0 above its top: the `(i < a->size) ? a->digits[i] : 0` read. */
  function Digit(s: seq<Word>, j: nat): Word
  {
    if j < |s| then s[j] else 0
  }

  /** The n words that reads of `Digit` produce for indices below n. */
  function Pad(s: seq<Word>, n: nat): (r: seq<Word>)
    ensures |r| == n
  {
    seq(n, j requires 0 <= j < n => Digit(s, j))
  }

  lemma {:induction false} PadValue(s: seq<Word>, n: nat)
    ensures Val(Pad(s, n)) == Val(s) % WPow(n)
  {
    if n >= |s| {
      assert Pad(s, n) == s + Zeros(n - |s|);
      ValZeroExtend(s, n - |s|);
      ValBound(s);
      WPowMono(|s|, n);
      ModUnique(Val(s), WPow(n), 0, Val(s));
    } else {
      assert Pad(s, n) == s[..n];
      ValTruncate(s, n);
    }
  }

  lemma {:induction false} PadStep(s: seq<Word>, i: nat)
    ensures Val(Pad(s, i + 1)) == Val(Pad(s, i)) + Digit(s, i) * WPow(i)
  {
    assert Pad(s, i + 1) == Pad(s, i) + [Digit(s, i)];
    ValAppend(Pad(s, i), Digit(s, i));
  }

  /** Storing t % BASE at weight W and carrying t / BASE to weight BASE·W keeps the total. */
  lemma {:induction false} CarryStep(W: int, t: int)
    ensures (t % BASE) * W + (t / BASE) * (BASE * W) == t * W
  {
    assert t == (t / BASE) * BASE + t % BASE;
    assert t * W == ((t / BASE) * BASE) * W + (t % BASE) * W;
  }

  /** `(i < x->size) ? x->digits[i] : 0`, the operand read of bn_do_add and bn_do_sub. */
  function Read(x: Bn, i: nat): Word
    reads x, x.digits
    requires x.Valid()
  {
    if i < x.size then x.digits[i] else 0
  }

  /** x still holds X, or is the destination, already resized to d words. */
  ghost predicate Operand(x: Bn, X: seq<Word>, d: nat)
    reads x, x.digits
  {
    x.Valid() && (x.digits[..] == X || (x.size == d && x.digits[..] == Resized(X, d)))
  }

  lemma {:induction false} OperandReads(x: Bn, X: seq<Word>, d: nat)
    requires Operand(x, X, d)
    ensures forall j :: 0 <= j < d ==> Read(x, j) == Digit(X, j)
  {
    ResizedValue(X, d);
  }

  /** The words written so far with the pending carry, and the operands' sum up to n words. */
  ghost function Carried(low: seq<Word>, carry: int): int
  {
    Val(low) + carry * WPow(|low|)
  }

  ghost function PadSum(A: seq<Word>, B: seq<Word>, n: nat): int
  {
    Val(Pad(A, n)) + Val(Pad(B, n))
  }

  lemma {:induction false} AddStep(low: seq<Word>, A: seq<Word>, B: seq<Word>, carry: int, sum: int)
    requires Carried(low, carry) == PadSum(A, B, |low|)
    requires sum == carry + Digit(A, |low|) + Digit(B, |low|) && 0 <= carry <= 1
    ensures 0 <= sum / BASE <= 1
    ensures Carried(low + [sum % BASE], sum / BASE) == PadSum(A, B, |low| + 1)
  {
    var i := |low|;
    ValAppend(low, sum % BASE);
    PadStep(A, i);
    PadStep(B, i);
    CarryArith(WPow(i), carry, Digit(A, i), Digit(B, i));
  }

  lemma {:induction false} CarryArith(W: int, carry: int, x: int, y: int)
    ensures ((carry + x + y) % BASE) * W + ((carry + x + y) / BASE) * (BASE * W)
            == carry * W + x * W + y * W
  {
    CarryStep(W, carry + x + y);
  }

  /** The sum fits in d words, so the words hold |a| + |b| exactly. */
  lemma {:induction false} AddFinish(w: seq<Word>, A: seq<Word>, B: seq<Word>)
    requires |w| == AddSize(A, B)
    requires Val(w) == (Val(Pad(A, |w|)) + Val(Pad(B, |w|))) % WPow(|w|)
    ensures DoAddWords(A, B) == DropTop(w)
  {
    AddWordsAre(w, A, B);
  }

  /** No carry is lost: the words are those of |a| + |b| itself. */
  lemma {:induction false} AddWordsAre(w: seq<Word>, A: seq<Word>, B: seq<Word>)
    requires |w| == AddSize(A, B)
    requires Val(w) == (Val(Pad(A, |w|)) + Val(Pad(B, |w|))) % WPow(|w|)
    ensures w == ToWords(Val(A) + Val(B), |w|)
  {
    var d, total := |w|, Val(A) + Val(B);
    AddFits(A, B);
    PadValue(A, d);
    PadValue(B, d);
    ModUnique(Val(A), WPow(d), 0, Val(A));
    ModUnique(Val(B), WPow(d), 0, Val(B));
    ToWordsUnique(w, total);
  }

  /** One iteration of bn_do_add's loop: word i of c becomes a[i] + b[i] + carry, modulo BASE. */
  method AddWord(a: Bn, b: Bn, c: Bn, i: nat, carry: int, ghost A: seq<Word>, ghost B: seq<Word>)
    returns (next: int)
    requires a.Valid() && b.Valid() && c.Valid() && i < c.size
    requires forall j :: i <= j < c.size ==> Read(a, j) == Digit(A, j)
    requires forall j :: i <= j < c.size ==> Read(b, j) == Digit(B, j)
    requires 0 <= carry <= 1
    requires Carried(c.digits[..i], carry) == PadSum(A, B, i)
    modifies c.digits
    ensures forall j :: i < j < c.size ==> Read(a, j) == Digit(A, j)
    ensures forall j :: i < j < c.size ==> Read(b, j) == Digit(B, j)
    ensures 0 <= next <= 1
    ensures Carried(c.digits[..i + 1], next) == PadSum(A, B, i + 1)
  {
    var t1 := Read(a, i);
    var t2 := Read(b, i);
    var sum := carry + t1 + t2;
    ghost var low := c.digits[..i];
    c.digits[i] := sum % BASE;
    assert c.digits[..i + 1] == low + [sum % BASE];
    AddStep(low, A, B, carry, sum);
    next := sum / BASE;
  }

  /** The carry loop of bn_do_add: c's words become (|a| + |b|) mod BASE^size. */
  method AddLoop(a: Bn, b: Bn, c: Bn, ghost A: seq<Word>, ghost B: seq<Word>)
    requires a.Valid() && b.Valid() && c.Valid()
    requires Operand(a, A, c.size) && Operand(b, B, c.size)
    modifies c.digits
    ensures Val(c.digits[..]) == (Val(Pad(A, c.size)) + Val(Pad(B, c.size))) % WPow(c.size)
  {
    OperandReads(a, A, c.size);
    OperandReads(b, B, c.size);
    var carry := 0;
    var i := 0;
    while i < c.size
      invariant 0 <= i <= c.size
      invariant forall j :: i <= j < c.size ==> Read(a, j) == Digit(A, j)
      invariant forall j :: i <= j < c.size ==> Read(b, j) == Digit(B, j)
      invariant 0 <= carry <= 1
      invariant Carried(c.digits[..i], carry) == PadSum(A, B, i)
    {
      carry := AddWord(a, b, c, i, carry, A, B);
      i := i + 1;
    }
    assert c.digits[..i] == c.digits[..];
    CarriedMod(c.digits[..], carry, PadSum(A, B, i));
  }

  /** Once the loop is done, the final carry is what falls off the top. */
  lemma {:induction false} CarriedMod(w: seq<Word>, carry: int, total: int)
    requires Carried(w, carry) == total
    ensures Val(w) == total % WPow(|w|)
  {
    ValBound(w);
    ModUnique(total, WPow(|w|), carry, Val(w));
  }

  /** bn_do_add: the words of |a| + |b| in c, without a zero top word unless c has one word. */
  method DoAdd(a: Bn, b: Bn, c: Bn)
    requires a.Valid() && b.Valid() && c.Valid()
    modifies c, c.digits
    ensures c.Valid()
    ensures c.digits == old(c.digits) || fresh(c.digits)
    ensures c.Model() == Num(DoAddWords(old(a.digits[..]), old(b.digits[..])), old(c.sign))
  {
    ghost var A, B := a.digits[..], b.digits[..];
    var ma := a.Msb();
    var mb := b.Msb();
    var d := DivRoundUp(Max(ma, mb) + 1, 32);
    assert d == AddSize(A, B);
    c.Resize(d);
    AddLoop(a, b, c, A, B);
    ghost var w := c.digits[..];
    AddFinish(w, A, B);
    DropTopZero(c);
  }

  /** The tail of bn_do_add: one zero top word is given back, unless it is the only word. */
  method DropTopZero(c: Bn)
    requires c.Valid()
    modifies c
    ensures c.Valid() && c.sign == old(c.sign)
    ensures c.digits == old(c.digits) || fresh(c.digits)
    ensures c.digits[..] == DropTop(old(c.digits[..]))
  {
    if c.digits[c.size - 1] == 0 && c.size > 1 {
      c.Resize(c.size - 1);
    }
  }

  /** Borrowing one unit of BASE·W when t is negative keeps the total. */
  lemma {:induction false} BorrowStep(W: int, t1: int, t2: int, borrow: int, w: int, next: int)
    requires w == t1 - t2 - borrow + next * BASE
    ensures w * W - next * (BASE * W) == t1 * W - t2 * W - borrow * W
  {
  }

  /** The words written so far less the pending borrow, and the operands' difference up to n words. */
  ghost function Borrowed(low: seq<Word>, borrow: int): int
  {
    Val(low) - borrow * WPow(|low|)
  }

  ghost function PadDiff(A: seq<Word>, B: seq<Word>, n: nat): int
  {
    Val(Pad(A, n)) - Val(Pad(B, n))
  }

  lemma {:induction false} SubStep(low: seq<Word>, A: seq<Word>, B: seq<Word>, borrow: int, w: Word, next: int)
    requires Borrowed(low, borrow) == PadDiff(A, B, |low|)
    requires w == Digit(A, |low|) - Digit(B, |low|) - borrow + next * BASE
    ensures Borrowed(low + [w], next) == PadDiff(A, B, |low| + 1)
  {
    var i := |low|;
    ValAppend(low, w);
    PadStep(A, i);
    PadStep(B, i);
    BorrowStep(WPow(i), Digit(A, i), Digit(B, i), borrow, w, next);
  }

  /** One iteration of bn_do_sub's loop: word i of c becomes a[i] - b[i] - borrow, modulo BASE. */
  method SubWord(a: Bn, b: Bn, c: Bn, i: nat, borrow: int, ghost A: seq<Word>, ghost B: seq<Word>)
    returns (next: int)
    requires a.Valid() && b.Valid() && c.Valid() && i < c.size
    requires forall j :: i <= j < c.size ==> Read(a, j) == Digit(A, j)
    requires forall j :: i <= j < c.size ==> Read(b, j) == Digit(B, j)
    requires 0 <= borrow <= 1
    requires Borrowed(c.digits[..i], borrow) == PadDiff(A, B, i)
    modifies c.digits
    ensures forall j :: i < j < c.size ==> Read(a, j) == Digit(A, j)
    ensures forall j :: i < j < c.size ==> Read(b, j) == Digit(B, j)
    ensures 0 <= next <= 1
    ensures Borrowed(c.digits[..i + 1], next) == PadDiff(A, B, i + 1)
  {
    var t1 := Read(a, i);
    var t2 := Read(b, i);
    var t := t1 - t2 - borrow;
    var w: Word := 0;
    if t < 0 {
      w, next := t + BASE, 1;
    } else {
      w, next := t, 0;
    }
    ghost var low := c.digits[..i];
    c.digits[i] := w;
    assert c.digits[..i + 1] == low + [w];
    SubStep(low, A, B, borrow, w, next);
  }

  /** The borrow loop of bn_do_sub: c's words become (|a| - |b|) mod BASE^size. */
  method SubLoop(a: Bn, b: Bn, c: Bn, ghost A: seq<Word>, ghost B: seq<Word>)
    requires a.Valid() && b.Valid() && c.Valid()
    requires Operand(a, A, c.size) && Operand(b, B, c.size)
    modifies c.digits
    ensures Val(c.digits[..]) == (Val(Pad(A, c.size)) - Val(Pad(B, c.size))) % WPow(c.size)
  {
    OperandReads(a, A, c.size);
    OperandReads(b, B, c.size);
    var carry := 0;
    var i := 0;
    while i < c.size
      invariant 0 <= i <= c.size
      invariant forall j :: i <= j < c.size ==> Read(a, j) == Digit(A, j)
      invariant forall j :: i <= j < c.size ==> Read(b, j) == Digit(B, j)
      invariant 0 <= carry <= 1
      invariant Borrowed(c.digits[..i], carry) == PadDiff(A, B, i)
    {
      carry := SubWord(a, b, c, i, carry, A, B);
      i := i + 1;
    }
    assert c.digits[..i] == c.digits[..];
    BorrowedMod(c.digits[..], carry, PadDiff(A, B, i));
  }

  /** Once the loop is done, the final borrow is what the top lends. */
  lemma {:induction false} BorrowedMod(w: seq<Word>, borrow: int, total: int)
    requires Borrowed(w, borrow) == total
    ensures Val(w) == total % WPow(|w|)
  {
    ValBound(w);
    ModUnique(total, WPow(|w|), -borrow, Val(w));
  }

  /** With d at least both sizes, the words hold (|a| - |b|) mod BASE^d. */
  lemma {:induction false} SubFinish(w: seq<Word>, A: seq<Word>, B: seq<Word>)
    requires |w| == Max(|A|, |B|) >= 1
    requires Val(w) == (Val(Pad(A, |w|)) - Val(Pad(B, |w|))) % WPow(|w|)
    ensures DoSubWords(A, B) == StripZeros(w)
  {
    var d := |w|;
    PadValue(A, d);
    PadValue(B, d);
    ValBound(A);
    ValBound(B);
    WPowMono(|A|, d);
    WPowMono(|B|, d);
    ModUnique(Val(A), WPow(d), 0, Val(A));
    ModUnique(Val(B), WPow(d), 0, Val(B));
    var v := (Val(A) - Val(B)) % WPow(d);
    ModUnique(v, WPow(d), 0, v);
    ToWordsUnique(w, v);
  }

  /** Resizing to size - clz/32 (keeping one word) is StripZeros. */
  lemma {:induction false} StripResized(w: seq<Word>, z: nat, k: nat)
    requires |w| >= 1 && z == ClzWords(w)
    requires k == if z / 32 == |w| then z / 32 - 1 else z / 32
    ensures k < |w| && StripZeros(w) == Resized(w, |w| - k)
  {
    assert w[..|w|] == w;
  }

  /** bn_do_sub: the words of (|a| - |b|) mod BASE^max(size), with the zero top words dropped. */
  method DoSub(a: Bn, b: Bn, c: Bn)
    requires a.Valid() && b.Valid() && c.Valid()
    modifies c, c.digits
    ensures c.Valid()
    ensures c.digits == old(c.digits) || fresh(c.digits)
    ensures c.Model() == Num(DoSubWords(old(a.digits[..]), old(b.digits[..])), old(c.sign))
  {
    ghost var A, B := a.digits[..], b.digits[..];
    var d: nat := if a.size > b.size then a.size else b.size;
    c.Resize(d);
    SubLoop(a, b, c, A, B);
    ghost var w := c.digits[..];
    SubFinish(w, A, B);
    DropZeroWords(c);
  }

  /** The tail of bn_do_sub: every zero top word is given back, keeping at least one word. */
  method DropZeroWords(c: Bn)
    requires c.Valid()
    modifies c
    ensures c.Valid() && c.sign == old(c.sign)
    ensures c.digits == old(c.digits) || fresh(c.digits)
    ensures c.digits[..] == StripZeros(old(c.digits[..]))
  {
    var z := c.Clz();
    var k := z / 32;
    if k == c.size {
      k := k - 1;
    }
    StripResized(c.digits[..], z, k);
    c.Resize(c.size - k);
  }

  /** bn_add: c = a + b, with c allowed to be a or b. */
  method Add(a: Bn, b: Bn, c: Bn)
    requires a.Valid() && b.Valid() && c.Valid()
    modifies c, c.digits
    ensures c.Valid()
    ensures c.digits == old(c.digits) || fresh(c.digits)
    ensures c.Model() == AddNum(old(a.Model()), old(b.Model()))
  {
    if a.sign == b.sign {
      DoAdd(a, b, c);
      c.sign := a.sign;
    } else {
      var p, q := a, b;
      if a.sign {
        p, q := b, a;
      }
      AddOppositeSigns(p, q, c);
    }
  }

  /** The mixed-sign half of bn_add, once p is the nonnegative operand and q the negative one. */
  method AddOppositeSigns(p: Bn, q: Bn, c: Bn)
    requires p.Valid() && q.Valid() && c.Valid() && !p.sign && q.sign
    modifies c, c.digits
    ensures c.Valid()
    ensures c.digits == old(c.digits) || fresh(c.digits)
    ensures c.Model() == AddNum(old(p.Model()), old(q.Model()))
  {
    var cmp := Cmp(p, q);
    if cmp > 0 {
      DoSub(p, q, c);
      c.sign := false;
    } else if cmp < 0 {
      DoSub(q, p, c);
      c.sign := true;
    } else {
      c.Resize(1);
      c.digits[0] := 0;
      c.sign := false;
      assert c.digits[..] == [0];
    }
  }

  /** bn_sub: bn_add of a header on b's words with the sign flipped; b itself is not touched. */
  method Sub(a: Bn, b: Bn, c: Bn)
    requires a.Valid() && b.Valid() && c.Valid()
    modifies c, c.digits
    ensures c.Valid()
    ensures c.digits == old(c.digits) || fresh(c.digits)
    ensures c.Model() == SubNum(old(a.Model()), old(b.Model()))
  {
    var tmp := new Bn.Alias(b.digits, b.size, !b.sign);
    Add(a, tmp, c);
  }

  // ---------------------------------------------------------------------
  // bn_mult_add, bn_mult
  // ---------------------------------------------------------------------

  lemma {:induction false} MultAddArith(W: int, carry: int, ci: int, rest: int)
    ensures ((carry + ci + rest % BASE) % BASE) * W
            + ((carry + ci + rest % BASE) / BASE + rest / BASE) * (BASE * W)
            == carry * W + ci * W + rest * W
  {
    var t := carry + ci + rest % BASE;
    CarryStep(W, t);
    CarryStep(W, rest);
    assert (t / BASE + rest / BASE) * (BASE * W) == (t / BASE) * (BASE * W) + (rest / BASE) * (BASE * W);
    assert t * W == carry * W + ci * W + (rest % BASE) * W;
  }

  /** A value within [0, BASE^n) that differs from V by a multiple of BASE^n is V mod BASE^n. */
  lemma {:induction false} WordsMod(w: seq<Word>, V: int, q: int, i: nat)
    requires i >= |w| && Val(w) + q * WPow(i) == V
    ensures Val(w) == V % WPow(|w|)
  {
    ValBound(w);
    WPowAdd(|w|, i - |w|);
    assert q * WPow(i) == WPow(|w|) * (q * WPow(i - |w|));
    ModUnique(V, WPow(|w|), q * WPow(i - |w|), Val(w));
  }

  /** One step of bn_mult_add's loop keeps word sum plus pending carry and x. */
  lemma {:induction false} MultAddStep(before: seq<Word>, i: nat, carry: int, rest: int, V: int, w: Word)
    requires i < |before| && Val(before) + (carry + rest) * WPow(i) == V
    requires w == (carry + before[i] + rest % BASE) % BASE
    ensures Val(before[i := w]) + ((carry + before[i] + rest % BASE) / BASE + rest / BASE) * WPow(i + 1) == V
  {
    ValUpdate(before, i, w);
    MultAddArith(WPow(i), carry, before[i], rest);
  }

  /**
   * bn_mult_add: c += x·BASE^offset, the carry running up to the top word and
   * whatever passes the top dropped; words below offset are not written.
   */
  method MultAdd(c: Bn, offset: nat, x: nat)
    requires c.Valid() && x < 0x1_0000_0000_0000_0000
    modifies c.digits
    ensures c.digits[..] == ToWords(Val(old(c.digits[..])) + x * WPow(offset), c.size)
    ensures forall j :: 0 <= j < offset && j < c.size ==> c.digits[j] == old(c.digits[j])
  {
    ghost var C := c.digits[..];
    ghost var V: nat := Val(C) + x * WPow(offset);
    var carry: nat := 0;
    var rest: nat := x;
    var i := offset;
    while i < c.size
      invariant offset <= i
      invariant Val(c.digits[..]) + (carry + rest) * WPow(i) == V
      invariant forall j :: 0 <= j < offset && j < c.size ==> c.digits[j] == C[j]
    {
      carry, rest := MultAddWord(c, i, carry, rest, V);
      if rest == 0 && carry == 0 {
        MultAddDone(c.digits[..], V, 0, c.size);
        return;
      }
      i := i + 1;
    }
    MultAddDone(c.digits[..], V, carry + rest, i);
  }

  /** Once the pending amount is a multiple of BASE^|w|, the words are V's low |w| words. */
  lemma {:induction false} MultAddDone(w: seq<Word>, V: nat, q: int, i: nat)
    requires i >= |w| && Val(w) + q * WPow(i) == V
    ensures w == ToWords(V, |w|)
  {
    WordsMod(w, V, q, i);
    ToWordsUnique(w, V);
  }

  /** One iteration of bn_mult_add's loop: word i absorbs the carry and the low word of x. */
  method MultAddWord(c: Bn, i: nat, carry: nat, rest: nat, ghost V: int) returns (carry': nat, rest': nat)
    requires c.Valid() && i < c.size
    requires Val(c.digits[..]) + (carry + rest) * WPow(i) == V
    modifies c.digits
    ensures c.digits[..] == old(c.digits[..])[i := c.digits[i]]
    ensures Val(c.digits[..]) + (carry' + rest') * WPow(i + 1) == V
  {
    var ci: nat := c.digits[i];
    var t := carry + ci + rest % BASE;
    ghost var before := c.digits[..];
    c.digits[i] := t % BASE;
    assert c.digits[..] == before[i := c.digits[i]];
    MultAddStep(before, i, carry, rest, V, c.digits[i]);
    carry' := t / BASE;
    rest' := rest / BASE;
  }

  lemma {:induction false} ModAddMod(p: int, t: int, M: int)
    requires M > 0
    ensures (p % M + t) % M == (p + t) % M
  {
    var q, r := (p + t) / M, (p + t) % M;
    assert p == M * (p / M) + p % M;
    assert p % M + t == M * (q - p / M) + r;
    ModUnique(p % M + t, M, q - p / M, r);
  }

  /** The product accumulated once rows 0 to i - 1 and cells 0 to j - 1 of row i are in. */
  ghost function Partial(A: seq<Word>, B: seq<Word>, i: nat, j: nat): int
    requires i < |A| && j <= |B|
  {
    Val(A[..i]) * Val(B) + A[i] * Val(B[..j]) * WPow(i)
  }

  lemma {:induction false} InnerStep(A: seq<Word>, B: seq<Word>, i: nat, j: nat)
    requires i < |A| && j < |B|
    ensures Val(A[..i]) * Val(B) + A[i] * Val(B[..j]) * WPow(i) + A[i] * B[j] * WPow(i + j)
            == Val(A[..i]) * Val(B) + A[i] * Val(B[..j + 1]) * WPow(i)
  {
    assert B[..j + 1] == B[..j] + [B[j]];
    ValAppend(B[..j], B[j]);
    WPowAdd(i, j);
    InnerArith(Val(A[..i]) * Val(B), A[i], Val(B[..j]), B[j], WPow(i), WPow(j), WPow(i + j));
  }

  lemma {:induction false} InnerArith(p0: int, ai: int, vb: int, bj: int, wi: int, wj: int, wij: int)
    requires wij == wi * wj
    ensures p0 + ai * vb * wi + ai * bj * wij == p0 + ai * (vb + bj * wj) * wi
  {
    assert ai * (vb + bj * wj) * wi == ai * vb * wi + ai * bj * (wi * wj);
  }

  /** Once all of b is done, row i completes the product of the first i + 1 words of a. */
  lemma {:induction false} OuterStep(A: seq<Word>, B: seq<Word>, i: nat)
    requires i < |A|
    ensures Val(A[..i]) * Val(B) + A[i] * Val(B[..|B|]) * WPow(i) == Val(A[..i + 1]) * Val(B)
  {
    assert B[..|B|] == B;
    assert A[..i + 1] == A[..i] + [A[i]];
    ValAppend(A[..i], A[i]);
    RowArith(Val(A[..i]), A[i], Val(B), WPow(i));
  }

  lemma {:induction false} RowArith(va: int, ai: int, vb: int, wi: int)
    ensures va * vb + ai * vb * wi == (va + ai * wi) * vb
  {
  }

  lemma {:induction false} WordProduct(x: Word, y: Word)
    ensures x * y < 0x1_0000_0000_0000_0000
  {
    MulLt(x, y, BASE, BASE);
  }

  /** One pass of bn_mult's inner loop: dst += a[i]·b[j]·BASE^(i+j). */
  method MultCell(a: Bn, b: Bn, dst: Bn, i: nat, j: nat, ghost A: seq<Word>, ghost B: seq<Word>)
    requires a.Valid() && b.Valid() && dst.Valid()
    requires dst.digits != a.digits && dst.digits != b.digits
    requires A == a.digits[..] && B == b.digits[..] && i < |A| && j < |B|
    requires Val(dst.digits[..]) == Partial(A, B, i, j) % WPow(dst.size)
    modifies dst.digits
    ensures Val(dst.digits[..]) == Partial(A, B, i, j + 1) % WPow(dst.size)
  {
    var x := a.digits[i] as int * b.digits[j] as int;
    WordProduct(a.digits[i], b.digits[j]);
    ghost var before := Val(dst.digits[..]);
    MultAdd(dst, i + j, x);
    CellStep(A, B, i, j, WPow(dst.size), x, before, Val(dst.digits[..]));
  }

  lemma {:induction false} CellStep(A: seq<Word>, B: seq<Word>, i: nat, j: nat, M: int, x: int, v: int, v': int)
    requires i < |A| && j < |B| && M > 0 && x == A[i] as int * B[j] as int
    requires v == Partial(A, B, i, j) % M
    requires v' == (v + x * WPow(i + j)) % M
    ensures v' == Partial(A, B, i, j + 1) % M
  {
    ModAddMod(Partial(A, B, i, j), x * WPow(i + j), M);
    InnerStep(A, B, i, j);
  }

  /** The double loop of bn_mult: dst, zero on entry, ends as |a|·|b| mod BASE^size. */
  method MultRows(a: Bn, b: Bn, dst: Bn)
    requires a.Valid() && b.Valid() && dst.Valid()
    requires dst.digits != a.digits && dst.digits != b.digits
    requires Val(dst.digits[..]) == 0
    modifies dst.digits
    ensures Val(dst.digits[..]) == (Val(a.digits[..]) * Val(b.digits[..])) % WPow(dst.size)
  {
    ghost var A, B := a.digits[..], b.digits[..];
    ghost var M := WPow(dst.size);
    var i := 0;
    while i < a.size
      invariant 0 <= i <= a.size
      invariant Val(dst.digits[..]) == (Val(A[..i]) * Val(B)) % M
    {
      var j := 0;
      assert B[..0] == [];
      while j < b.size
        invariant 0 <= j <= b.size
        invariant Val(dst.digits[..]) == Partial(A, B, i, j) % M
      {
        MultCell(a, b, dst, i, j, A, B);
        j := j + 1;
      }
      OuterStep(A, B, i);
      i := i + 1;
    }
    assert A[..i] == A;
  }

  /** The zeroing loop of bn_mult's non-aliased path. */
  method Clear(c: Bn)
    requires c.Valid()
    modifies c.digits
    ensures c.digits[..] == Zeros(c.size)
  {
    var i := 0;
    while i < c.size
      invariant 0 <= i <= c.size
      invariant forall j :: 0 <= j < i ==> c.digits[j] == 0
    {
      c.digits[i] := 0;
      i := i + 1;
    }
  }

  /** Words holding |a|·|b| mod BASE^d for bn_mult's d are MultNum's words. */
  lemma {:induction false} MultWords(A: seq<Word>, B: seq<Word>, w: seq<Word>, sa: bool, sb: bool)
    requires |w| == MultSize(MsbWords(A), MsbWords(B))
    requires Val(w) == (Val(A) * Val(B)) % WPow(|w|)
    ensures MultNum(Num(A, sa), Num(B, sb)) == Num(w, sa != sb)
  {
    MultFits(Num(A, sa), Num(B, sb));
    ToWordsUnique(w, Val(A) * Val(B));
  }

  /** The rows of bn_mult written into a zeroed, separate destination of the product's size. */
  method Product(a: Bn, b: Bn, dst: Bn)
    requires a.Valid() && b.Valid() && dst.Valid()
    requires dst != a && dst != b && dst.digits != a.digits && dst.digits != b.digits
    requires dst.size == MultSize(MsbWords(a.digits[..]), MsbWords(b.digits[..]))
    requires Val(dst.digits[..]) == 0
    modifies dst, dst.digits
    ensures dst.Valid() && dst.digits == old(dst.digits)
    ensures dst.Model() == MultNum(a.Model(), b.Model())
  {
    MultRows(a, b, dst);
    dst.sign := a.sign != b.sign;
    MultWords(a.digits[..], b.digits[..], dst.digits[..], a.sign, b.sign);
  }

  /** bn_mult's aliased path: the product is built in a new bn of d words. */
  method MultFresh(a: Bn, b: Bn, d: nat) returns (dst: Bn)
    requires a.Valid() && b.Valid()
    requires d == MultSize(MsbWords(a.digits[..]), MsbWords(b.digits[..]))
    ensures fresh(dst) && fresh(dst.digits) && dst.Valid()
    ensures dst.Model() == MultNum(a.Model(), b.Model())
  {
    dst := new Bn(d);
    ValZeros(d);
    Product(a, b, dst);
  }

  /** bn_mult's separate path: c is zeroed, resized to d words and receives the product. */
  method MultInto(a: Bn, b: Bn, c: Bn, d: nat)
    requires a.Valid() && b.Valid() && c.Valid()
    requires c != a && c != b && c.digits != a.digits && c.digits != b.digits
    requires d == MultSize(MsbWords(a.digits[..]), MsbWords(b.digits[..]))
    modifies c, c.digits
    ensures c.Valid()
    ensures c.digits == old(c.digits) || fresh(c.digits)
    ensures c.Model() == MultNum(old(a.Model()), old(b.Model()))
  {
    Clear(c);
    c.Resize(d);
    assert c.digits[..] == Zeros(d);
    ValZeros(d);
    Product(a, b, c);
  }

  /**
   * bn_mult: c = a·b in ceil((msb a + msb b) / 32) words (at least one), the
   * top word possibly zero.  When c is a or b the product is built in a new
   * bn whose contents are then swapped into c.
   */
  method Mult(a: Bn, b: Bn, c: Bn)
    requires a.Valid() && b.Valid() && c.Valid()
    requires c != a ==> c.digits != a.digits
    requires c != b ==> c.digits != b.digits
    modifies c, c.digits
    ensures c.Valid()
    ensures c.digits == old(c.digits) || fresh(c.digits)
    ensures c.Model() == MultNum(old(a.Model()), old(b.Model()))
  {
    ghost var A, B := a.digits[..], b.digits[..];
    var ma := a.Msb();
    var mb := b.Msb();
    var d := DivRoundUp(ma + mb, 32) + (if ma + mb == 0 then 1 else 0);
    assert d == MultSize(MsbWords(A), MsbWords(B));
    if c == a || c == b {
      var dst := MultFresh(a, b, d);
      ghost var product := dst.Model();
      Swap(c, dst);
      assert c.digits[..] == product.digits;
    } else {
      MultInto(a, b, c, d);
    }
  }

  // ---------------------------------------------------------------------
  // bn_lshift (destination == source)
  // ---------------------------------------------------------------------

  lemma {:induction false} MulModSplit(w: nat, P: nat, Q: nat)
    requires P > 0 && Q > 0
    ensures (w * P) % (P * Q) == P * (w % Q)
    ensures w * P == (P * Q) * (w / Q) + (w * P) % (P * Q)
  {
    var h, l := w / Q, w % Q;
    assert w == Q * h + l;
    assert w * P == (P * Q) * h + P * l;
    MulLe(l, Q - 1, P);
    assert (Q - 1) * P == P * Q - P;
    ModUnique(w * P, P * Q, h, P * l);
  }

  /** w·2^s mod 2^32 keeps the low 32 - s bits of w, moved up by s. */
  lemma {:induction false} ShiftSplit(w: nat, s: nat)
    requires 0 < s < 32
    ensures Pow2(s) * Pow2(32 - s) == BASE
    ensures (w * Pow2(s)) % BASE == Pow2(s) * (w % Pow2(32 - s))
    ensures w * Pow2(s) == BASE * (w / Pow2(32 - s)) + (w * Pow2(s)) % BASE
  {
    Pow2Add(s, 32 - s);
    Pow2Of32();
    MulModSplit(w, Pow2(s), Pow2(32 - s));
  }

  lemma {:induction false} DivBelow(x: int, P: int, Q: int)
    requires P > 0 && Q > 0 && 0 <= x < P * Q
    ensures 0 <= x / Q < P
  {
    var h := x / Q;
    assert x == Q * h + x % Q;
    if h >= P {
      MulLe(P, h, Q);
    }
  }

  /** `w << s | prev >> (32 - s)` on 32-bit words, for 0 < s < 32. */
  function ShiftOr(w: Word, prev: Word, s: nat): Word
    requires 0 < s < 32
  {
    var x: int, y: int := w, prev;
    ShiftOrFits(x, y, s);
    (x * Pow2(s)) % BASE + y / Pow2(32 - s)
  }

  /** The two parts of ShiftOr occupy disjoint bits, so their sum is a word. */
  lemma {:induction false} ShiftOrFits(x: nat, y: nat, s: nat)
    requires 0 < s < 32 && x < BASE && y < BASE
    ensures 0 <= (x * Pow2(s)) % BASE + y / Pow2(32 - s) < BASE
  {
    var P, Q := Pow2(s), Pow2(32 - s);
    ShiftSplit(x, s);
    DivBelow(y, P, Q);
    OrBound((x * P) % BASE, x % Q, y / Q, P, Q);
  }

  /** A multiple of P below P·Q plus a value below P stays below P·Q. */
  lemma {:induction false} OrBound(m: int, lo: int, h: int, P: int, Q: int)
    requires m == P * lo && 0 <= lo < Q && 0 <= h < P
    ensures 0 <= m + h < P * Q
  {
    MulLe(lo, Q - 1, P);
    MulLe(0, lo, P);
    assert (Q - 1) * P == P * Q - P;
    assert P * lo == lo * P;
  }

  /** Word j after the shift: its own low bits moved up, or-ed with the high bits of word j - 1. */
  function ShiftedWord(W: seq<Word>, s: nat, j: nat): Word
    requires 0 < s < 32 && j < |W|
  {
    ShiftOr(W[j], if j == 0 then 0 else W[j - 1], s)
  }

  function ShiftedWords(W: seq<Word>, s: nat): (r: seq<Word>)
    requires 0 < s < 32
    ensures |r| == |W|
  {
    seq(|W|, j requires 0 <= j < |W| => ShiftedWord(W, s, j))
  }

  /** Bits shifted out of the first k words. */
  function ShiftOut(W: seq<Word>, s: nat, k: nat): int
    requires 0 < s < 32 && k <= |W|
  {
    if k == 0 then 0 else var w: int := W[k - 1]; w / Pow2(32 - s)
  }

  /** The first k shifted words plus the bits shifted out of them make Val(W[..k])·2^s. */
  lemma {:induction false} ShiftPrefix(W: seq<Word>, s: nat, k: nat)
    requires 0 < s < 32 && k <= |W|
    ensures Val(ShiftedWords(W, s)[..k]) + ShiftOut(W, s, k) * WPow(k) == Val(W[..k]) * Pow2(s)
  {
    var R := ShiftedWords(W, s);
    if k == 0 {
      assert R[..0] == [] && W[..0] == [];
    } else {
      var m := k - 1;
      ShiftPrefix(W, s, m);
      assert R[..k] == R[..m] + [R[m]];
      assert W[..k] == W[..m] + [W[m]];
      ValAppend(R[..m], R[m]);
      ValAppend(W[..m], W[m]);
      ShiftSplit(W[m], s);
      ShiftArith(Val(R[..m]), Val(W[..m]), ShiftOut(W, s, m), W[m], (W[m] * Pow2(s)) % BASE,
                 W[m] / Pow2(32 - s), Pow2(s), WPow(m));
    }
  }

  lemma {:induction false} ShiftArith(vr: int, vw: int, o: int, w: int, low: int, high: int, P: int, Wm: int)
    requires vr + o * Wm == vw * P
    requires w * P == BASE * high + low
    ensures (vr + (low + o) * Wm) + high * (BASE * Wm) == (vw + w * Wm) * P
  {
    assert (vw + w * Wm) * P == vw * P + (w * P) * Wm;
    assert (BASE * high + low) * Wm == high * (BASE * Wm) + low * Wm;
  }

  /** The shifted words are x·2^s mod BASE^n. */
  lemma {:induction false} ShiftedWordsValue(W: seq<Word>, s: nat)
    requires 0 < s < 32
    ensures ShiftedWords(W, s) == ToWords(Val(W) * Pow2(s), |W|)
  {
    var R := ShiftedWords(W, s);
    ShiftPrefix(W, s, |W|);
    assert R[..|W|] == R && W[..|W|] == W;
    WordsMod(R, Val(W) * Pow2(s), ShiftOut(W, s, |W|), |W|);
    ToWordsUnique(R, Val(W) * Pow2(s));
  }

  /** What bn_lshift leaves: the shifted words of x, resized first to its new word count. */
  lemma {:induction false} LShiftWords(X: seq<Word>, shift: nat, sign: bool)
    requires |X| >= 1 && shift % 32 != 0
    ensures LShiftNum(Num(X, sign), shift) ==
            Num(ShiftedWords(Resized(X, |X| + (if shift % 32 > ClzWords(X) then 1 else 0)), shift % 32), sign)
  {
    var s := shift % 32;
    var n := |X| + (if s > ClzWords(X) then 1 else 0);
    ResizedValue(X, n);
    ShiftedWordsValue(Resized(X, n), s);
  }

  /**
   * bn_lshift(x, shift, x): shift % 32 == 0 leaves x as it is; otherwise x
   * grows by one word iff shift % 32 exceeds its clz and is shifted left.
   */
  method LShift(x: Bn, shift: nat)
    requires x.Valid()
    modifies x, x.digits
    ensures x.Valid()
    ensures x.digits == old(x.digits) || fresh(x.digits)
    ensures x.Model() == LShiftNum(old(x.Model()), shift)
  {
    ghost var X := x.digits[..];
    var z := x.Clz();
    var s := shift % 32;
    if s == 0 {
      return;
    }
    if s > z {
      x.Resize(x.size + 1);
    } else {
      x.Resize(x.size);
    }
    ShiftWords(x, s);
    LShiftWords(X, shift, x.sign);
  }

  /** The word loop of bn_lshift, from the top word down, then word 0. */
  method ShiftWords(x: Bn, s: nat)
    requires x.Valid() && 0 < s < 32
    modifies x.digits
    ensures x.digits[..] == ShiftedWords(old(x.digits[..]), s)
  {
    ghost var W := x.digits[..];
    var i := x.size - 1;
    while i > 0
      invariant 0 <= i < x.size
      invariant forall j :: i < j < x.size ==> x.digits[j] == ShiftedWord(W, s, j)
      invariant forall j :: 0 <= j <= i ==> x.digits[j] == W[j]
    {
      x.digits[i] := ShiftOr(x.digits[i], x.digits[i - 1], s);
      i := i - 1;
    }
    x.digits[0] := ShiftOr(x.digits[0], 0, s);
    assert x.digits[..] == ShiftedWords(W, s);
  }
}
