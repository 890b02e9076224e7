/** Fixed-width unsigned C integers (`uint16_t`, `uint32_t`, `unsigned`) as the
    sequence of their bits, least significant first: bit k of `w` is `w[k]`.
    The C operators the encoder uses are defined bit by bit at the width of
    their operand, and `ToNat` gives the number a word denotes. */
module MachineWords {

  type Bits = seq<bool>

  /** A `uint16_t`. */
  type Word16 = w: Bits | |w| == 16 witness seq(16, _ => false)

  /** A 32-bit `unsigned` (also C `int` holding a non-negative value). */
  type Word32 = w: Bits | |w| == 32 witness seq(32, _ => false)

  /** A `uint32_t` handled only as a number (timer compare values). */
  type Uint32 = n: nat | n < 0x1_0000_0000

  function Pow2(n: nat): (r: nat)
    ensures r >= 1
  {
    if n == 0 then 1 else 2 * Pow2(n - 1)
  }

  /** The number a word denotes. */
  function ToNat(w: Bits): nat {
    if w == [] then 0 else (if w[0] then 1 else 0) + 2 * ToNat(w[1..])
  }

  /** The all-zero word. */
  function Zeros(width: nat): (r: Bits) {
    seq(width, _ => false)
  }

  /** The constant `2^n - 1` (e.g. `0xf` is `LowMask(4, width)`). */
  function LowMask(n: nat, width: nat): (r: Bits) {
    seq(width, k requires 0 <= k < width => k < n)
  }

  /** The constant `2^n` (e.g. `0x8000` is `SingleBit(15, 16)`). */
  function SingleBit(n: nat, width: nat): (r: Bits) {
    seq(width, k requires 0 <= k < width => k == n)
  }

  /** A C `bool` converted to an integer type: 1 or 0. */
  function FromBool(b: bool, width: nat): (r: Bits) {
    seq(width, k requires 0 <= k < width => k == 0 && b)
  }

  /** Conversion to an unsigned type of `width` bits: zero-extends a narrower
      word, keeps the low `width` bits of a wider one. */
  function Resize(w: Bits, width: nat): (r: Bits) {
    seq(width, k requires 0 <= k < width => k < |w| && w[k])
  }

  /** `w << n`, bits shifted past the top of the word are lost. */
  function Shl(w: Bits, n: nat): (r: Bits) {
    seq(|w|, k requires 0 <= k < |w| => n <= k && w[k - n])
  }

  /** `w >> n` on an unsigned word. */
  function Shr(w: Bits, n: nat): (r: Bits) {
    seq(|w|, k requires 0 <= k < |w| => k + n < |w| && w[k + n])
  }

  function And(a: Bits, b: Bits): (r: Bits)
    requires |a| == |b|
  {
    seq(|a|, k requires 0 <= k < |a| => a[k] && b[k])
  }

  function Or(a: Bits, b: Bits): (r: Bits)
    requires |a| == |b|
  {
    seq(|a|, k requires 0 <= k < |a| => a[k] || b[k])
  }

  function Xor(a: Bits, b: Bits): (r: Bits)
    requires |a| == |b|
  {
    seq(|a|, k requires 0 <= k < |a| => a[k] != b[k])
  }

  /** `~w`. */
  function Not(w: Bits): (r: Bits) {
    seq(|w|, k requires 0 <= k < |w| => !w[k])
  }

  /** C's truth value of an integer: nonzero. */
  predicate NonZero(w: Bits) {
    exists k :: 0 <= k < |w| && w[k]
  }

  /** A word is below `2^|w|`. */
  lemma {:induction false} ToNatBound(w: Bits)
    ensures ToNat(w) < Pow2(|w|)
  {
    if w != [] {
      ToNatBound(w[1..]);
    }
  }

  /** A word denotes 0 exactly when all its bits are clear. */
  lemma {:induction false} ToNatZero(w: Bits)
    ensures ToNat(w) == 0 <==> forall k :: 0 <= k < |w| ==> !w[k]
  {
    if w != [] {
      ToNatZero(w[1..]);
      assert forall k :: 1 <= k < |w| ==> w[k] == w[1..][k - 1];
    }
  }

  /** The low `k` bits and the rest of a word: `w == (w & (2^k - 1)) + 2^k * (w >> k)`. */
  lemma {:induction false} ToNatSplit(w: Bits, k: nat)
    requires k <= |w|
    ensures ToNat(w) == ToNat(w[..k]) + Pow2(k) * ToNat(w[k..])
  {
    if k == 0 {
      assert w[..0] == [] && w[0..] == w;
    } else {
      var rest := w[1..];
      ToNatSplit(rest, k - 1);
      assert rest[k - 1..] == w[k..];
      assert w[..k][1..] == rest[..k - 1];
      ShiftSum(if w[0] then 1 else 0, ToNat(rest[..k - 1]), Pow2(k - 1), ToNat(w[k..]));
    }
  }

  /** `b + 2 * (low + p * high) == (b + 2 * low) + (2 * p) * high`. */
  lemma ShiftSum(b: int, low: int, p: int, high: int)
    ensures b + 2 * (low + p * high) == (b + 2 * low) + (2 * p) * high
  {
  }

  /** `p * x >= p` for a positive multiplier. */
  lemma {:induction false} MulAtLeast(p: nat, x: nat)
    requires x >= 1
    ensures p * x >= p
  {
    if x > 1 {
      MulAtLeast(p, x - 1);
      assert p * x == p * (x - 1) + p;
    }
  }

  /** A word is below `2^k` exactly when its bits from `k` up are clear. */
  lemma HighBitsClear(w: Bits, k: nat)
    requires k <= |w|
    ensures ToNat(w) < Pow2(k) <==> forall j :: k <= j < |w| ==> !w[j]
  {
    ToNatSplit(w, k);
    ToNatBound(w[..k]);
    ToNatZero(w[k..]);
    assert forall j :: k <= j < |w| ==> w[j] == w[k..][j - k];
    if ToNat(w[k..]) != 0 {
      MulAtLeast(Pow2(k), ToNat(w[k..]));
    }
  }

  /** `2^n - 1` denotes what its name says. */
  lemma {:induction false} LowMaskValue(n: nat, width: nat)
    requires n <= width
    ensures ToNat(LowMask(n, width)) == Pow2(n) - 1
  {
    if width > 0 {
      var m := LowMask(n, width);
      if n == 0 {
        ToNatZero(m);
      } else {
        assert m[1..] == LowMask(n - 1, width - 1);
        LowMaskValue(n - 1, width - 1);
      }
    }
  }

  /** A value below `2^k` is unchanged by `& (2^k - 1)`. */
  lemma MaskBelow(w: Bits, k: nat)
    requires k <= |w| && ToNat(w) < Pow2(k)
    ensures And(w, LowMask(k, |w|)) == w
  {
    HighBitsClear(w, k);
  }

  /** Two right shifts add up. */
  lemma ShrShr(w: Bits, a: nat, b: nat)
    ensures Shr(Shr(w, a), b) == Shr(w, a + b)
  {
  }

  /** A left shift by one more position. */
  lemma ShlShl(w: Bits, a: nat)
    ensures Shl(Shl(w, a), 1) == Shl(w, a + 1)
  {
  }

  /** Testing bit `n` by masking with `2^n`. */
  lemma SingleBitTest(w: Bits, n: nat)
    requires n < |w|
    ensures NonZero(And(w, SingleBit(n, |w|))) == w[n]
  {
    if w[n] {
      assert And(w, SingleBit(n, |w|))[n];
    }
  }

  /** Two words of one width that denote the same number are equal. */
  lemma {:induction false} ToNatInjective(a: Bits, b: Bits)
    requires |a| == |b| && ToNat(a) == ToNat(b)
    ensures a == b
  {
    if a != [] {
      ToNatInjective(a[1..], b[1..]);
      assert a == [a[0]] + a[1..] && b == [b[0]] + b[1..];
    }
  }

  /** `w <<= n` on a `uint16_t`: the shift happens after promotion to 32-bit
      `int` and the assignment truncates back, which is the 16-bit shift. */
  lemma PromotedShl(w: Word16, n: nat)
    ensures Resize(Shl(Resize(w, 32), n), 16) == Shl(w, n)
  {
  }

  /** Clear bits from `k` up do not add to a word's value. */
  lemma ToNatLowBits(w: Bits, k: nat)
    requires k <= |w|
    requires forall j :: k <= j < |w| ==> !w[j]
    ensures ToNat(w) == ToNat(w[..k])
  {
    ToNatSplit(w, k);
    assert forall j :: 0 <= j < |w| - k ==> w[k..][j] == w[k + j];
    ToNatZero(w[k..]);
  }

  /** `w == (w & (2^k - 1)) + 2^k * (w >> k)`. */
  lemma MaskShiftSplit(w: Bits, k: nat)
    requires k <= |w|
    ensures ToNat(w) == ToNat(And(w, LowMask(k, |w|))) + Pow2(k) * ToNat(Shr(w, k))
  {
    var low, high := And(w, LowMask(k, |w|)), Shr(w, k);
    ToNatLowBits(low, k);
    assert low[..k] == w[..k];
    ToNatLowBits(high, |w| - k);
    assert high[..|w| - k] == w[k..];
    ToNatSplit(w, k);
  }
}
