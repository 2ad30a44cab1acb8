# fibdrv: a verified model of the Fibonacci driver and its bignum engine

fibdrv is a Linux character device that serves Fibonacci numbers. A reader
seeks to the index n it wants, and a read renders F(n) as a decimal string.
It computes with a small arbitrary-precision library, `bn.h`. A `bn` is a
header holding three things:

- a `digits` array of 32-bit words, least significant first;
- a word count `size`;
- a `sign` flag.

The library offers allocation, resize, copy, swap, leading-zero count and
bit length, magnitude compare, magnitude add and subtract, signed add and
subtract, schoolbook multiplication, a left shift by fewer than 32 bits, and
decimal rendering by repeated doubling.

The driver holds four Fibonacci routines, all modelled here:

- the table routine `fib_sequence_dp`;
- the branchless 64-bit fast-doubling routine `fib_sequence`;
- linear bignum iteration, `fib_og_bn`;
- bignum fast doubling, `fib_fdbbn`.

The seek handler clamps the file position to [0, 817]. The user-space test
program adds a recursive fast-doubling routine, `fib_fd`. Its other two
routines are textual copies of the driver's `fib_sequence` and
`fib_sequence_dp`, so each is modelled once.

## Layout

| file | module | contents |
|---|---|---|
| `words.dfy` | `Words` | 32-bit words, `Val(s)` = Σ s[i]·2^(32i), powers of two, bit length, and the bit and division facts the proofs share |
| `bnspec.dfy` | `BnSpec` | `Num` (words plus sign) and one pure function per bn.h operation, computing exactly what the code computes (including size-first compare), with the lemmas giving each one's arithmetic meaning |
| `bignum.dfy` | `Bignum` | `class Bn` (fields `digits: array<Word>`, `size`, `sign`) and one method per bn.h routine; each ensures that its new state is the `BnSpec` function of the old state |
| `decimal.dfy` | `Decimal` | `bn_to_string`: the doubling loop over a character buffer, the zero skip, the sign, the final move |
| `fibmath.dfy` | `FibMath` | `Fib`, the addition and doubling identities, and the signed 64-bit limit at n = 92 |
| `fibdrv.dfy` | `FibDrv` | the four driver routines, the rule behind the fast-doubling bug and its correction, and `fib_device_lseek` |
| `testground.dfy` | `TestGround` | `fib_fd` |

How things are modelled:

- 64-bit and 32-bit integers are unbounded `int`. Word truncation is written
  as `% 2^32`, shifts as multiplication or division by powers of two, and
  `|` as `+` where the bits are disjoint.
- The masks of `fib_sequence` are 0 or -1, written as two's-complement
  arithmetic.
- Aliasing is modelled directly. `c` may be `a` or `b` in `Add`, `Sub` and
  `Mult`, and every such method is stated in terms of the operands' `old`
  values.
- `bn_sub` builds a header on `b`'s own words with the sign flipped
  (`Bn.Alias`) and hands it to `Add`.
- `bn_mult` with an aliased destination multiplies into a fresh buffer, then
  swaps it in (`MultFresh`).

`bn_cmp` compares sizes before words. Magnitude comparison, and so signed
add and subtract, is therefore exact only for well-ordered operands
(`SizeOrdered`): equal sizes, or the longer one has a nonzero top word.
Canonical inputs always are.

`bn_mult` sizes its result from the operands' bit lengths. The result can
keep a zero top word (`MultLeavesZeroTop`), and such a number can mislead
`bn_cmp` (`CmpMisordersLeadingZero`, `AddMisledByLeadingZero`). The
bignum fast-doubling routine therefore needs a reason why its compares are
exact. Between passes its four bns keep an invariant (`Tracking`):

- f_k_next and k_next are canonical and nonnegative;
- 0 ≤ f_k ≤ f_k_next, and k_next holds f_k or f_k_next;
- f_k may keep a zero top word from `bn_mult`, but then it has no more
  words than 2·k_next.

So every compare along the 32 passes is exact (`RunExactHolds`), and the
routine computes the integer recurrence `IntDoubled` for every n
(`FdbbnValues`).

## Model

| member | source | states |
|---|---|---|
| BnSpec.ClzAllZero | bn.h:27-39 | the leading-zero count is 32·size exactly when the value is zero |
| BnSpec.MsbIsBitLen | bn.h:160-163 | size·32 − clz is the bit length of the value |
| Bignum.Bn.Clz | bn.h:27-39 | the method's loop returns the word-level leading-zero count of the digits (32 per zero top word plus the clz of the highest nonzero word) |
| Bignum.Bn.Msb | bn.h:160-163 | the method returns the bit length of the value the digits denote |
| Bignum.Bn.constructor | bn.h:45-53 | a fresh word array of the requested size, all zero, sign cleared |
| Bignum.Bn.Alias | bn.h:251-252 | a second header on the same word array with the given size and sign, as the struct copy in bn_sub makes |
| Bignum.Bn.Resize | bn.h:69-85 | the same size keeps the array untouched; growing keeps every old word and zero-fills the rest; shrinking keeps the low words; the sign is unchanged |
| BnSpec.ResizedValue | bn.h:69-85 | a resize to n words keeps the value when growing and leaves it modulo 2^(32n) when shrinking, word by word |
| BnSpec.GrowShrink | bn.h:81-83 | growing and then shrinking back restores the original words |
| Bignum.Copy | bn.h:91-98 | dest ends with src's words and sign, and src is unchanged |
| Bignum.Swap | bn.h:270-275 | the two headers exchange words, size and sign |
| Bignum.Cmp | bn.h:142-157 | the result is the size-first comparison of the two word sequences |
| BnSpec.CmpExact | bn.h:142-157 | for well-ordered operands the comparison is the sign of the difference of the magnitudes |
| BnSpec.CanonicalSizeOrdered | bn.h:144-147 | operands without zero top words are always well-ordered |
| BnSpec.CmpMisordersLeadingZero | bn.h:144-145 | [0, 0] compares above [1] although its value is smaller |
| BnSpec.AddFits | bn.h:168-171 | ceil((max(msb a, msb b) + 1)/32) words hold the magnitude sum |
| Bignum.AddLoop | bn.h:173-180 | after the carry loop the destination words denote (mag(a) + mag(b)) mod 2^(32·size) |
| Bignum.DropTopZero | bn.h:182-183 | a zero top word is dropped when more than one word remains |
| Bignum.DoAdd | bn.h:166-184 | the destination becomes bn_do_add's word sequence of the two old operands, and its sign is kept; this holds with c aliasing a or b |
| BnSpec.DoAddCorrect | bn.h:166-184 | bn_do_add's words denote mag(a) + mag(b) and have no zero top word unless there is a single word |
| Bignum.SubLoop | bn.h:196-208 | after the borrow loop the destination words denote (mag(a) − mag(b)) mod 2^(32·size) |
| Bignum.DropZeroWords | bn.h:210-213 | leading zero words are stripped, keeping at least one word |
| BnSpec.StripCorrect | bn.h:210-213 | stripping keeps the value and leaves a canonical sequence |
| Bignum.DoSub | bn.h:190-214 | the destination becomes bn_do_sub's word sequence of the two old operands, and its sign is kept |
| BnSpec.DoSubCorrect | bn.h:186-214 | bn_do_sub's words are canonical and denote mag(a) − mag(b) modulo 2^(32·max size), and exactly mag(a) − mag(b) when mag(a) ≥ mag(b) |
| Bignum.Add | bn.h:219-243 | c becomes the signed sum of the old a and b as bn_add computes it, with c allowed to be a or b |
| Bignum.AddOppositeSigns | bn.h:224-242 | with a nonnegative and b negative, c becomes the compare-driven difference or +0 |
| BnSpec.SubByCmp | bn.h:227-235 | the compare's verdict picks the subtraction order whose result is positive and canonical; a verdict of 0 means equal magnitudes |
| BnSpec.AddCorrect | bn.h:219-243 | for well-ordered operands the signed value of the sum is the sum of the signed values; the result is canonical and is never negative zero when the inputs are not |
| BnSpec.AddNegationIsZero | bn.h:236-241 | x plus its own negation is +0 (size 1, word 0, sign 0) |
| BnSpec.AddCommutes | bn.h:225-226 | swapping the operands gives the same result |
| BnSpec.AddMisledByLeadingZero | bn.h:227-241 | 5 + (−5 held as [5, 0]) yields a negative zero, because the compare is misled by the zero top word |
| Bignum.Sub | bn.h:248-254 | c becomes a + (−b) as bn_add computes it, and b itself is not changed |
| BnSpec.SubCorrect | bn.h:248-254 | for well-ordered operands the signed value of the difference is the difference of the signed values, canonical |
| Bignum.MultAdd | bn.h:257-268 | c's words become (c + x·2^(32·offset)) mod 2^(32·size), and no word below offset changes |
| Bignum.Clear | bn.h:294-295 | every word of the destination is zeroed |
| Bignum.MultRows | bn.h:299-305 | after the nested loops the destination denotes mag(a)·mag(b) mod 2^(32·size) |
| Bignum.Product | bn.h:299-306 | on a zeroed destination of the product's size, the destination becomes the product number, with sign a XOR b |
| Bignum.MultFresh | bn.h:289-291 | the aliased case: a fresh header of d words receives the product |
| Bignum.MultInto | bn.h:292-306 | the non-aliased case: cleared, resized, then filled with the product |
| Bignum.Mult | bn.h:282-312 | c becomes the product number of the old a and b, with c allowed to be a or b |
| BnSpec.MultFits | bn.h:285-286 | ceil((msb a + msb b)/32) words, at least one, hold the magnitude product |
| BnSpec.MultCorrect | bn.h:282-312 | the magnitude is mag(a)·mag(b), the sign is a XOR b, and the signed value is the product of the signed values |
| BnSpec.MultLeavesZeroTop | bn.h:285-286 | 2^32 × 0 yields the two words [0, 0], which is not canonical |
| Bignum.LShift | bn.h:315-331 | the value becomes the shift the code computes (a shift count of 0 mod 32 leaves it untouched) |
| Bignum.ShiftedWordsValue | bn.h:328-331 | the word-by-word shift with carry-in from the word below denotes value·2^s mod 2^(32·size) |
| Bignum.ShiftWords | bn.h:327-331 | every word i > 0 becomes its own bits shifted up, or-ed with the bits word i − 1 shifts out; word 0 is shifted alone |
| Bignum.LShiftWords | bn.h:317-331 | the shift grows the number by a word exactly when shift mod 32 exceeds clz, and then shifts every word |
| BnSpec.LShiftCorrect | bn.h:315-331 | the magnitude is multiplied by 2^(shift mod 32), the sign kept, and the number grows by one word iff 0 < shift mod 32 and shift mod 32 > clz |
| BnSpec.LShiftCanonical | bn.h:322-326 | a shifted canonical number stays canonical |
| Decimal.FillZeros | bn.h:111-112 | the buffer starts as all '0' digits, denoting zero |
| Decimal.Double | bn.h:117-123 | one pass over the digits doubles the decimal number and adds the carry bit |
| Decimal.AbsorbWord | bn.h:114-125 | after the 32 passes for word i the digits denote the value divided by 2^(32i) |
| Decimal.AbsorbAll | bn.h:114-125 | after every word the digits denote the whole magnitude and the terminator is in place |
| Decimal.BufferSuffices | bn.h:106-107 | 32·size/3 + 1 decimal digits hold any value below 2^(32·size) |
| Decimal.RoomForDigits | bn.h:107 | the buffer length leaves room for every digit and, when the sign is set, one place for '-' |
| Decimal.SkipZeros | bn.h:127-129 | the skip stops where the magnitude's decimal notation begins, past the first place whenever the value needs fewer places than the buffer has |
| Decimal.MoveDown | bn.h:132 | the memmove brings the rendered text to the start of the buffer |
| Decimal.ToString | bn.h:104-134 | the string is '-' when the sign is set, then the magnitude's decimal digits |
| Decimal.DecimalStringDenotes | bn.h:126-129 | the rendered digits are nonempty, denote the value, and have no leading '0' unless the value is zero |
| Decimal.DecimalStringUnique | bn.h:126-129 | a digit string without a leading '0' is the rendering of the number it denotes |
| FibMath.FibAdd | fibdrv.c:58-59 | F(a + b + 1) = F(a + 1)·F(b + 1) + F(a)·F(b) |
| FibMath.FibDoubling | fibdrv.c:58-59 | F(2m) = F(m)·(2F(m + 1) − F(m)) and F(2m + 1) = F(m)² + F(m + 1)² |
| FibMath.FibLimit | fibdrv.c:20-21 | F(92) is below 2^63 and F(93) is not |
| FibMath.FibFitsInt64 | fibdrv.c:20-21 | every F(n) with n ≤ 92 fits a signed 64-bit integer |
| FibDrv.FibSequenceDp | fibdrv.c:35-47 | the table routine returns F(k), and for k ≤ 92 the value fits a `long long`; the copy at test_ground/test1.c:56-65 is the same routine |
| FibDrv.SequenceStep | fibdrv.c:58-63 | with cover 0 or −1 for bit b of k, the masked expressions give F(2m + b) and F(2m + b + 1) |
| FibDrv.FibSequence | fibdrv.c:49-66 | k < 2 is returned as it is; every k ≥ 0 gives F(k), within 64 bits for k ≤ 92; fib_sequence_clz at test_ground/test1.c:37-54 is the same routine |
| FibDrv.OgSetup | fibdrv.c:75-77 | two fresh zero headers; target holds 1 |
| FibDrv.OgStep | fibdrv.c:79-83 | the swap, add and swap rotate the three headers: after iteration i the first holds F(i) and target F(i + 1), with target's sign |
| FibDrv.FibOgBn | fibdrv.c:68-86 | target ends canonical, its magnitude F(n) and its sign unchanged; n < 2 leaves the single word n |
| FibDrv.DoublingSetup | fibdrv.c:95-100 | f_k is 0, f_k_next 1, k and k_next 0, on four distinct buffers: f_k on target's own, the other three freshly allocated |
| FibDrv.DoublingTwice | fibdrv.c:103-104 | k becomes k_next shifted left by one |
| FibDrv.DoublingTimes | fibdrv.c:105-106 | k becomes (k − f_k)·f_k |
| FibDrv.DoublingK | fibdrv.c:103-106 | k becomes (2·k_next − f_k)·f_k, computed from the old k_next |
| FibDrv.DoublingSquares | fibdrv.c:107-108 | f_k and f_k_next are squared in place |
| FibDrv.DoublingSum | fibdrv.c:109-111 | k_next becomes f_k + f_k_next, the sum of the squares |
| FibDrv.DoublingProducts | fibdrv.c:103-111 | the four headers become (f_k², f_k_next², (2·k_next − f_k)·f_k, f_k² + f_k_next²) of the old values |
| FibDrv.DoublingSelect | fibdrv.c:113-121 | a set bit makes the pair (k_next, k + k_next); a clear bit makes it (k, k_next) |
| FibDrv.PlanPlanned | fibdrv.c:102-122 | the run over the bits of n is a chain of states, each pass's arithmetic and selection leading from one state to the next |
| FibDrv.PlannedProducts | fibdrv.c:103-111 | the arithmetic of the pass for bit j moves the headers from the run's state before the pass to its state before the selection |
| FibDrv.PlannedSelect | fibdrv.c:113-121 | the selection on bit j of n then moves them to the run's state after the pass |
| FibDrv.DoublingRound | fibdrv.c:102-122 | the pass for bit b − 1 of n moves the state from step b to step b − 1 of the run |
| FibDrv.DoublingLoop | fibdrv.c:102-122 | the 32 passes from bit 31 down to bit 0 leave the state the run reaches at its end |
| FibDrv.FibFdbbn | fibdrv.c:89-126 | n < 2 leaves the single word n; otherwise target is the f_k that 32 doubling steps over the bits of n compute, and its magnitude is the f_k of the integer recurrence |
| FibDrv.KValue | fibdrv.c:103-106 | the k computed has signed value (2·k_next − f_k)·f_k |
| FibDrv.SquaresValue | fibdrv.c:107-111 | k_next has signed value f_k² + f_k_next² and canonical words |
| FibDrv.DoublingStepValues | fibdrv.c:103-121 | with exact compares, a step on headers is the integer step on their values |
| FibDrv.DoubledValues | fibdrv.c:102-122 | with exact compares throughout, the headers after every pass hold the integer recurrence's values |
| FibDrv.TrackingStart | fibdrv.c:95-100 | the set-up state (0 with target's sign, 1, +0, +0) satisfies the invariant |
| FibDrv.ShiftedOrdered | fibdrv.c:103-105 | 2·k_next is canonical, nonnegative, and compares exactly with f_k in bn_sub |
| FibDrv.DifferenceTracked | fibdrv.c:105 | 2·k_next − f_k is computed exactly and is negative only as a zero |
| FibDrv.ProductTracked | fibdrv.c:106 | k = (2·k_next − f_k)·f_k in magnitude, with the word count bn_mult allots |
| FibDrv.SquaresTracked | fibdrv.c:107-111 | k_next = f_k² + f_k_next² is canonical, nonnegative and at least 1 |
| FibDrv.KWords | bn.h:285-286 | bn_mult's word count for k never exceeds that of 2·k_next |
| FibDrv.ProductsPassed | fibdrv.c:102-111 | from a state satisfying the invariant, the arithmetic of a pass leaves k = (2·k_next − f_k)·f_k, negative only as a zero, and a canonical nonnegative k_next = f_k² + f_k_next² |
| FibDrv.SumTracked | fibdrv.c:113-116 | on a set bit, k + k_next is exact, canonical and nonnegative |
| FibDrv.SelectTracked | fibdrv.c:113-121 | either choice of a pass restores the invariant |
| FibDrv.PassedExact | fibdrv.c:113-116 | bn_add's compare of k with k_next is exact: only a one-word zero k carries a sign k_next lacks |
| FibDrv.TrackingExact | fibdrv.c:102-121 | from a state satisfying the invariant, both compares of the pass are exact |
| FibDrv.TrackingStep | fibdrv.c:102-121 | each pass preserves the invariant |
| FibDrv.RunTracking | fibdrv.c:95-122 | every state of the run satisfies the invariant |
| FibDrv.RunExactHolds | fibdrv.c:102-122 | every compare along the run is exact, for every n |
| FibDrv.FdbbnValues | fibdrv.c:89-126 | the bns of the run hold the integer recurrence's values, and f_k's magnitude is its f_k |
| FibDrv.LeadingZeros | fibdrv.c:102-122 | the passes for the zero bits above n's top bit keep the state (0, 1, 1) |
| FibDrv.AlignedStep | fibdrv.c:103-121 | from (F(m), F(m + 1)) with k_next = F(m + 1), one step gives F(2m + b), F(2m + b + 1) |
| FibDrv.AsWrittenStepIff | fibdrv.c:103-106 | on a clear bit, the new f_k is F(2m) exactly when the k_next left over from the previous pass equals F(m + 1) (on a set bit it is k_next = F(2m + 1) whatever was left over) |
| FibDrv.PowerRun | fibdrv.c:102-122 | for n = 2^j the state stays aligned, so every pass doubles the index |
| FibDrv.AsWrittenPowersOfTwo | fibdrv.c:102-122 | as written, every power of two below 2^32 yields the right Fibonacci number, on integers and in the bignum run |
| FibDrv.DoublingMisses | fibdrv.c:103 | for n = 6 the recurrence as written reaches (2, 3, 2) one bit from the end and yields 4, while F(6) = 8; the bignum run leaves magnitude 4 in target |
| FibDrv.SixRun | fibdrv.c:102-122 | the as-written recurrence on n = 6 passes through (1, 1, 1) and (2, 3, 2) and ends with f_k = 4 |
| FibDrv.FixedStepFib | fibdrv.c:103-121 | with k seeded from f_k_next, a step maps (F(m), F(m + 1)) to (F(2m + b), F(2m + b + 1)) |
| FibDrv.FixedDoubledTracks | fibdrv.c:102-122 | with the correction, after the passes for bits above b the pair is (F(n >> b), F((n >> b) + 1)) |
| FibDrv.FixedDoublingIsFib | fibdrv.c:102-122 | with the correction the loop yields F(n) for every n below 2^32 |
| FibDrv.Clamp | fibdrv.c:195-198 | the clamped position lies in [0, 817] and is the point of [0, 817] nearest the target |
| FibDrv.File.DeviceLseek | fibdrv.c:180-201 | SEEK_SET/CUR/END give offset, pos + offset and 817 − offset, any other whence gives 0; the result is clamped and becomes the new position |
| TestGround.FibFdIsFib | test_ground/test1.c:20-35 | fib_fd agrees with F on every n ≥ 0: 0 at 0, 1 at 1 and 2, and the odd and even halving identities above |
| TestGround.FibFdFits | test_ground/test1.c:20-35 | for n ≤ 92 fib_fd's result fits a `long long` |

## Findings

| source | as written | input that shows it | evidently intended | confidence | as-written member | corrected member |
|---|---|---|---|---|---|---|
| fibdrv.c:103 | `bn_copy(k, k_next)` seeds k from the k_next of the previous pass. After a set bit that is F(2m + 1), the new f_k, not the new f_k_next | n = 6 yields 4 instead of F(6) = 8 | `bn_copy(k, f_k_next)`, so that k = 2·F(m + 1) − F(m) | high, not executed | FibDrv.DoublingMisses | FibDrv.FixedDoublingIsFib |

`FibDrv.FibFdbbn` models the routine as written, so the device's `write`
path computes the as-written value. `FibDrv.FdbbnValues` links it to the
integer recurrence `IntDoubled` for every n, and `FibDrv.DoublingMisses`
shows the bignum run leaving 4 for n = 6. The as-written recurrence is still right for n < 2 and for every power of
two (`FibDrv.AsWrittenPowersOfTwo`). The corrected recurrence `FixedDoubled`
is proved to yield F(n) for every n below 2^32.

## Left out

- Allocation failure: `kmalloc`/`krealloc` are taken to succeed. The NULL checks in `bn_resize` and `bn_copy`, and their -1 return codes, are not modelled.
- Bignum.Bn.Resize: requires a size of at least 1. `bn_resize(x, 0)` frees the object, and the driver never asks for it.
- `bn_free`: memory is reclaimed by Dafny's heap, so freeing is not modelled.
- Bignum.Sub: the C code's temporary header shares `b`'s word array. If `c == b` and `bn_add` moves that array with `krealloc`, the header dangles. The model's heap never frees, so the old words stay readable. The driver never calls `bn_sub` with `c == b`.
- Bignum.LShift: requires `dest == insert`, the only use (fibdrv.c:104). When growing with a distinct destination, the C code never writes the top word.
- Bignum.Add, Bignum.Sub: the result is exactly the signed sum or difference only for well-ordered operands (`BnSpec.AddCorrect`, `BnSpec.SubCorrect`), because `bn_cmp` compares sizes first.
- FibDrv.FibSequenceDp: requires k ≥ 0. For a negative k the variable-length array `f[k + 2]` is too short to hold `f[1]`, so the C code writes out of bounds, which is undefined behaviour.
- FibDrv.FibSequenceDp, FibDrv.FibSequence, TestGround.FibFdIsFib: integers are unbounded. Above n = 92 the C `long long` overflows. The model proves F(n) itself and that the result fits 64 bits for n ≤ 92.
- At k = 92, `fib_sequence`'s last pass forms `temp_2` = F(46)² + F(47)² = F(93), which exceeds 2^63. That signed overflow sits in the half the mask discards, and the model's unbounded `int` does not capture it.
- FibDrv.FibSequence: the `k & (1 << i)` test is modelled as bit i of k, (k / 2^i) mod 2. With `1UL << 31` and k < 2^31 the two agree.
- FibDrv.FibFdbbn: `n & i` is modelled as bit b of n, with `i = 2^b`.
- The comment at test_ground/test1.c:25 reads "F(1) = F(2) = 0", but the code returns 1. The model follows the code.
- Kernel plumbing is not modelled: module init and exit, `cdev`/`class`/`device` registration, and the `fib_open`/`fib_release` mutex.
- `fib_read`/`fib_write` are not modelled: `copy_to_user`, the `ktime` timing returned as the length, the leaked string in `fib_read`, and `strlen`. Their computation is `FibOgBn` or `FibFdbbn`, then `Decimal.ToString`, each modelled.
- FibDrv.File.DeviceLseek: `loff_t` is unbounded, so the 64-bit overflow of `f_pos + offset` or `817 − offset` is not modelled.
- The test program's `main`, `elapse`, `clock_gettime`, `open` and `printf` are I/O and timing, and are not modelled.
