/**
 * Python's unbounded non-negative integers seen as bit strings: powers of two,
 * `bin(n).count('1')`, and the bitwise operators `&`, `|` and `^`, each defined
 * bit by bit from the lowest bit up, with lemmas tying them to arithmetic.
 */
module Bits {
  import opened Wrappers

  /** 2 to the power k (`1 << k`). */
  function Pow2(k: nat): (r: nat)
    ensures r >= 1
  {
    if k == 0 then 1 else 2 * Pow2(k - 1)
  }

  lemma {:induction false} Pow2Add(a: nat, b: nat)
    ensures Pow2(a + b) == Pow2(a) * Pow2(b)
    decreases a
  {
    if a > 0 {
      Pow2Add(a - 1, b);
      assert Pow2(a + b) == 2 * Pow2(a - 1 + b);
    }
  }

  lemma {:induction false} Pow2Monotone(a: nat, b: nat)
    requires a <= b
    ensures Pow2(a) <= Pow2(b)
    decreases b
  {
    if a < b {
      Pow2Monotone(a, b - 1);
    }
  }

  /** Quotient and remainder are the only pair that rebuilds the dividend. */
  lemma {:induction false} DivModUnique(a: int, d: int, q: int, r: int)
    requires d > 0 && 0 <= r < d && a == q * d + r
    ensures a / d == q && a % d == r
  {
    var q', r' := a / d, a % d;
    assert a == q' * d + r';
    assert (q - q') * d == r' - r;
    if q > q' {
      MulAtLeast(q - q', d);
    } else if q < q' {
      MulAtLeast(q' - q, d);
    }
  }

  lemma {:induction false} MulAtLeast(x: int, d: int)
    requires x >= 1 && d > 0
    ensures x * d >= d
  {
    assert x * d == d + (x - 1) * d;
  }

  /** Dropping the lowest bit: how `% 2^k` and `/ 2^k` see the number shifted right once. */
  lemma {:induction false} ModPow2Step(a: nat, k: nat)
    requires k >= 1
    ensures a % Pow2(k) == 2 * ((a / 2) % Pow2(k - 1)) + a % 2
    ensures a / Pow2(k) == (a / 2) / Pow2(k - 1)
  {
    var p := Pow2(k - 1);
    var h := a / 2;
    var q, r := h / p, h % p;
    assert h == q * p + r;
    assert a == q * (2 * p) + (2 * r + a % 2);
    DivModUnique(a, 2 * p, q, 2 * r + a % 2);
  }

  /** `bin(n).count('1')`: the number of one bits of n. */
  function Popcount(n: nat): nat {
    if n == 0 then 0 else n % 2 + Popcount(n / 2)
  }

  /** `a & b` on non-negative integers. */
  function BitAnd(a: nat, b: nat): nat
    decreases a
  {
    if a == 0 || b == 0 then 0
    else 2 * BitAnd(a / 2, b / 2) + (if a % 2 == 1 && b % 2 == 1 then 1 else 0)
  }

  /** `a | b` on non-negative integers. */
  function BitOr(a: nat, b: nat): nat
    decreases a
  {
    if a == 0 then b
    else if b == 0 then a
    else 2 * BitOr(a / 2, b / 2) + (if a % 2 == 1 || b % 2 == 1 then 1 else 0)
  }

  /** `a ^ b` on non-negative integers. */
  function BitXor(a: nat, b: nat): nat
    decreases a
  {
    if a == 0 then b
    else if b == 0 then a
    else 2 * BitXor(a / 2, b / 2) + (if a % 2 != b % 2 then 1 else 0)
  }

  /** A number below 2^k has at most k one bits. */
  lemma {:induction false} PopcountBound(n: nat, k: nat)
    requires n < Pow2(k)
    ensures Popcount(n) <= k
    decreases k
  {
    if n > 0 {
      assert k >= 1;
      PopcountBound(n / 2, k - 1);
    }
  }

  /** The one bits of `hi << k | lo` are those of hi plus those of lo. */
  lemma {:induction false} PopcountConcat(hi: nat, lo: nat, k: nat)
    requires lo < Pow2(k)
    ensures Popcount(hi * Pow2(k) + lo) == Popcount(hi) + Popcount(lo)
    decreases k
  {
    if k == 0 {
      assert hi * Pow2(k) == hi;
    } else {
      var p := Pow2(k - 1);
      var y := hi * p + lo / 2;
      var x := hi * Pow2(k) + lo;
      assert hi * Pow2(k) == 2 * (hi * p) by {
        assert Pow2(k) == 2 * p;
      }
      assert x == 2 * y + lo % 2;
      PopcountConcat(hi, lo / 2, k - 1);
      if hi > 0 {
        MulAtLeast(hi, Pow2(k));
      }
    }
  }

  /** 2^k - 1 is k one bits. */
  lemma {:induction false} PopcountOnes(k: nat)
    ensures Popcount(Pow2(k) - 1) == k
    decreases k
  {
    if k > 0 {
      PopcountOnes(k - 1);
      var x := Pow2(k) - 1;
      assert x == 2 * (Pow2(k - 1) - 1) + 1;
    }
  }

  /** Masking with k low one bits keeps every number below 2^k. */
  lemma {:induction false} BitAndOnes(a: nat, k: nat)
    requires a < Pow2(k)
    ensures BitAnd(a, Pow2(k) - 1) == a
    decreases k
  {
    if a > 0 {
      assert k >= 1;
      var m := Pow2(k) - 1;
      assert m / 2 == Pow2(k - 1) - 1 && m % 2 == 1;
      BitAndOnes(a / 2, k - 1);
    }
  }

  /** The k low bits of a, read as a number (`a & ((1 << k) - 1)`). */
  function LowBits(a: nat, k: nat): (r: nat)
    ensures r < Pow2(k) && r <= a
    decreases k
  {
    if k == 0 then 0 else 2 * LowBits(a / 2, k - 1) + a % 2
  }

  /** The k low bits are the remainder modulo 2^k. */
  lemma {:induction false} LowBitsMod(a: nat, k: nat)
    ensures LowBits(a, k) == a % Pow2(k)
    decreases k
  {
    if k == 0 {
      DivModUnique(a, 1, a, 0);
    } else {
      LowBitsMod(a / 2, k - 1);
      ModPow2Step(a, k);
    }
  }

  lemma {:induction false} LowBitsOfSmall(a: nat, k: nat)
    requires a < Pow2(k)
    ensures LowBits(a, k) == a
    decreases k
  {
    if k > 0 {
      LowBitsOfSmall(a / 2, k - 1);
    }
  }

  /** Masking with the bits k..w-1 clears the k low bits of a number below 2^w. */
  lemma {:induction false} BitAndHigh(a: nat, w: nat, k: nat)
    requires k <= w && a < Pow2(w)
    ensures Pow2(k) <= Pow2(w)
    ensures BitAnd(a, Pow2(w) - Pow2(k)) == a - LowBits(a, k)
    decreases k
  {
    Pow2Monotone(k, w);
    if k == 0 {
      BitAndOnes(a, w);
    } else if k == w {
      LowBitsOfSmall(a, k);
    } else if a == 0 {
      LowBitsOfSmall(a, k);
    } else {
      BitAndHighStep(a, w, k);
    }
  }

  lemma {:induction false} BitAndHighStep(a: nat, w: nat, k: nat)
    requires 0 < k < w && 0 < a < Pow2(w)
    ensures Pow2(k) <= Pow2(w)
    ensures BitAnd(a, Pow2(w) - Pow2(k)) == a - LowBits(a, k)
    decreases k, 0
  {
    var h := a / 2;
    assert h < Pow2(w - 1);
    BitAndHigh(h, w - 1, k - 1);
    HighMaskHalves(a, w, k);
    assert LowBits(a, k) == 2 * LowBits(h, k - 1) + a % 2;
  }

  /** The mask of bits k..w-1 is twice the mask of bits k-1..w-2. */
  lemma {:induction false} HighMaskHalves(a: nat, w: nat, k: nat)
    requires 0 < k < w && 0 < a
    ensures Pow2(k) <= Pow2(w)
    ensures BitAnd(a, Pow2(w) - Pow2(k)) == 2 * BitAnd(a / 2, Pow2(w - 1) - Pow2(k - 1))
  {
    Pow2Monotone(k, w - 1);
    BitAndEven(a, Pow2(w) - Pow2(k), Pow2(w - 1) - Pow2(k - 1));
  }

  /** Masking with an even number m drops the low bit and masks the rest with m / 2. */
  lemma {:induction false} BitAndEven(a: nat, m: nat, c: nat)
    requires a > 0 && c > 0 && m == 2 * c
    ensures BitAnd(a, m) == 2 * BitAnd(a / 2, c)
  {
    assert m / 2 == c && m % 2 == 0;
  }

  /** Clearing the k low bits leaves a number whose k low bits are zero. */
  lemma {:induction false} ClearLowBits(a: nat, k: nat)
    ensures LowBits(a - LowBits(a, k), k) == 0
    decreases k
  {
    if k > 0 {
      var h := a / 2;
      ClearLowBits(h, k - 1);
      var c := a - LowBits(a, k);
      assert c == 2 * (h - LowBits(h, k - 1));
      assert c / 2 == h - LowBits(h, k - 1) && c % 2 == 0;
    }
  }

  /** A number whose k low bits are zero is its high part shifted back left. */
  lemma {:induction false} ShiftBack(v: nat, k: nat)
    requires LowBits(v, k) == 0
    ensures v == (v / Pow2(k)) * Pow2(k)
  {
    LowBitsMod(v, k);
  }

  /** p one bits followed by k zero bits. */
  lemma {:induction false} HighMaskProduct(p: nat, k: nat)
    ensures Pow2(p + k) - Pow2(k) == (Pow2(p) - 1) * Pow2(k)
  {
    Pow2Add(p, k);
  }

  /** Setting the k low bits of a number whose k low bits are clear adds 2^k - 1. */
  lemma {:induction false} BitOrLow(n: nat, k: nat)
    requires LowBits(n, k) == 0
    ensures BitOr(n, Pow2(k) - 1) == n + Pow2(k) - 1
    decreases k
  {
    if k > 0 && n > 0 {
      var m := Pow2(k) - 1;
      assert m / 2 == Pow2(k - 1) - 1 && m % 2 == 1;
      BitOrLow(n / 2, k - 1);
    }
  }

  /** Flipping every bit of a number below 2^k: `(2^k - 1) ^ a == 2^k - 1 - a`. */
  lemma {:induction false} BitXorOnes(a: nat, k: nat)
    requires a < Pow2(k)
    ensures BitXor(Pow2(k) - 1, a) == Pow2(k) - 1 - a
    ensures BitXor(a, Pow2(k) - 1) == Pow2(k) - 1 - a
    decreases k
  {
    if k > 0 && a > 0 {
      var m := Pow2(k) - 1;
      assert m / 2 == Pow2(k - 1) - 1 && m % 2 == 1;
      BitXorOnes(a / 2, k - 1);
    }
  }

  // ------------------------------------------------ prefix masks of a w-bit word

  /** `v >> k`. */
  function ShiftRight(v: nat, k: nat): nat {
    if k == 0 then v else ShiftRight(v / 2, k - 1)
  }

  /** `(2^w - 1) >> p` is the w - p low one bits. */
  lemma {:induction false} ShiftOnesRight(p: nat, w: nat)
    requires p <= w
    ensures ShiftRight(Pow2(w) - 1, p) == Pow2(w - p) - 1
    decreases p
  {
    if p > 0 {
      assert (Pow2(w) - 1) / 2 == Pow2(w - 1) - 1;
      ShiftOnesRight(p - 1, w - 1);
    }
  }

  /** `(x << k) >> k == x`. */
  lemma {:induction false} ShiftRightOfShifted(x: nat, k: nat)
    ensures ShiftRight(x * Pow2(k), k) == x
    decreases k
  {
    if k > 0 {
      assert x * Pow2(k) == 2 * (x * Pow2(k - 1));
      ShiftRightOfShifted(x, k - 1);
    }
  }

  /** A number whose k low bits are clear is `(v >> k) << k`. */
  lemma {:induction false} ShiftRightBack(v: nat, k: nat)
    requires LowBits(v, k) == 0
    ensures v == ShiftRight(v, k) * Pow2(k)
    decreases k
  {
    if k > 0 {
      ShiftRightBack(v / 2, k - 1);
      assert ShiftRight(v, k) * Pow2(k) == 2 * (ShiftRight(v / 2, k - 1) * Pow2(k - 1));
    }
  }

  /**
   * `_ip_int_from_prefix(p)` of an address family whose addresses have w bits:
   * `ALL_ONES ^ (ALL_ONES >> p)` with `ALL_ONES == 2^w - 1`.
   */
  function PrefixMask(p: nat, w: nat): nat
    requires p <= w
  {
    BitXor(Pow2(w) - 1, ShiftRight(Pow2(w) - 1, p))
  }

  /** The prefix mask is p one bits above w - p zero bits. */
  lemma {:induction false} PrefixMaskValue(p: nat, w: nat)
    requires p <= w
    ensures Pow2(w - p) <= Pow2(w)
    ensures PrefixMask(p, w) == Pow2(w) - Pow2(w - p)
  {
    ShiftOnesRight(p, w);
    Pow2Monotone(w - p, w);
    BitXorOnes(Pow2(w - p) - 1, w);
  }

  lemma {:induction false} PrefixMaskProduct(p: nat, w: nat)
    requires p <= w
    ensures PrefixMask(p, w) == (Pow2(p) - 1) * Pow2(w - p)
  {
    PrefixMaskValue(p, w);
    HighMaskProduct(p, w - p);
    assert p + (w - p) == w;
  }

  /** `netmask ^ ALL_ONES` of a w-bit word: the bits the prefix mask leaves out. */
  function HostMask(p: nat, w: nat): nat
    requires p <= w
  {
    BitXor(PrefixMask(p, w), Pow2(w) - 1)
  }

  /** The host mask is the w - p low one bits. */
  lemma {:induction false} HostMaskValue(p: nat, w: nat)
    requires p <= w
    ensures HostMask(p, w) == Pow2(w - p) - 1
    ensures HostMask(p, w) < Pow2(w)
  {
    PrefixMaskValue(p, w);
    BitXorOnes(PrefixMask(p, w), w);
  }

  /** For 0 < k < w, the k low one bits are no prefix mask of a w-bit word. */
  lemma {:induction false} LowOnesNotPrefixMask(k: nat, w: nat)
    requires 0 < k < w
    ensures PrefixOfMask(Pow2(k) - 1, w) == None
  {
    LowOnesOdd(k);
    Pow2Below(k, w);
    OddNotPrefixMask(Pow2(k) - 1, w);
  }

  lemma {:induction false} LowOnesOdd(k: nat)
    requires k > 0
    ensures (Pow2(k) - 1) % 2 == 1
  {
    assert Pow2(k) - 1 == 2 * (Pow2(k - 1) - 1) + 1;
  }

  lemma {:induction false} Pow2Below(a: nat, b: nat)
    requires a < b
    ensures Pow2(a) < Pow2(b)
  {
    Pow2Monotone(a, b - 1);
  }

  /** An odd number other than 2^w - 1 is no prefix mask of a w-bit word. */
  lemma {:induction false} OddNotPrefixMask(v: nat, w: nat)
    ensures v % 2 == 1 && v != Pow2(w) - 1 ==> PrefixOfMask(v, w) == None
  {
    if v % 2 == 1 {
      assert TrailingZeros(v, w) == 0;
    }
  }

  /** Flipping the w - p low one bits of a w-bit word gives the prefix mask of p. */
  lemma {:induction false} LowOnesFlipped(p: nat, w: nat)
    requires p <= w
    ensures Pow2(w - p) - 1 < Pow2(w)
    ensures PrefixOfMask(BitXor(Pow2(w - p) - 1, Pow2(w) - 1), w) == Some(p)
  {
    var v := BitXor(Pow2(w - p) - 1, Pow2(w) - 1);
    Pow2Monotone(w - p, w);
    BitXorOnes(Pow2(w - p) - 1, w);
    PrefixMaskValue(p, w);
    PrefixOfMaskIff(v, p, w);
  }

  /** Masking with the prefix mask keeps the top p bits of a w-bit word and clears the rest. */
  lemma {:induction false} MaskWithPrefix(a: nat, p: nat, w: nat)
    requires a < Pow2(w) && p <= w
    ensures BitAnd(a, PrefixMask(p, w)) == a - LowBits(a, w - p)
    ensures LowBits(BitAnd(a, PrefixMask(p, w)), w - p) == 0
  {
    var k := w - p;
    PrefixMaskValue(p, w);
    BitAndHigh(a, w, k);
    ClearLowBits(a, k);
  }

  /** Setting the bits the prefix mask leaves out of an aligned b gives the last number of its block. */
  lemma {:induction false} FillHostBits(b: nat, p: nat, w: nat)
    requires p <= w && LowBits(b, w - p) == 0
    ensures BitOr(b, HostMask(p, w)) == b + Pow2(w - p) - 1
  {
    HostMaskValue(p, w);
    BitOrLow(b, w - p);
  }

  /** `_count_righthand_zero_bits(v, bits)`: the trailing zero bits of v, at most bits. */
  function TrailingZeros(v: nat, bits: nat): (r: nat)
    ensures r <= bits
  {
    if bits == 0 || v % 2 == 1 then 0 else 1 + TrailingZeros(v / 2, bits - 1)
  }

  /**
   * `_prefix_from_ip_int(v)` of a w-bit address family: count the trailing
   * zeros, and accept v when what is left above them is all ones.
   */
  function PrefixOfMask(v: nat, w: nat): (r: Option<nat>)
    ensures r.Some? ==> r.value <= w
  {
    var zeros := TrailingZeros(v, w);
    var p := w - zeros;
    if ShiftRight(v, zeros) == Pow2(p) - 1 then Some(p) else None
  }

  /**
   * `_prefix_from_ip_string` once the text has parsed as the w-bit word v:
   * v read as a netmask, and failing that, flipped (`v ^ ALL_ONES`) and read
   * as a hostmask.
   */
  function MaskOrHostmaskPrefix(v: nat, w: nat): (r: Option<nat>)
    ensures r.Some? ==> r.value <= w
  {
    match PrefixOfMask(v, w)
    case Some(p) => Some(p)
    case None => PrefixOfMask(BitXor(v, Pow2(w) - 1), w)
  }

  /** A netmask is read as its own length. */
  lemma {:induction false} PrefixMaskReadBack(p: nat, w: nat)
    requires p <= w
    ensures MaskOrHostmaskPrefix(PrefixMask(p, w), w) == Some(p)
  {
    PrefixOfMaskComplete(p, w);
  }

  /** The hostmask of 0 < p < w is no netmask, and flipped it is the netmask of length p. */
  lemma {:induction false} HostMaskReadBack(p: nat, w: nat)
    requires 0 < p < w
    ensures MaskOrHostmaskPrefix(Pow2(w - p) - 1, w) == Some(p)
  {
    LowOnesNotPrefixMask(w - p, w);
    LowOnesFlipped(p, w);
  }

  lemma {:induction false} TrailingZerosClear(v: nat, bits: nat)
    ensures LowBits(v, TrailingZeros(v, bits)) == 0
    decreases bits
  {
    if bits > 0 && v % 2 == 0 {
      TrailingZerosClear(v / 2, bits - 1);
    }
  }

  lemma {:induction false} TrailingZerosOfShifted(x: nat, k: nat, bits: nat)
    requires k <= bits && (x % 2 == 1 || k == bits)
    ensures TrailingZeros(x * Pow2(k), bits) == k
    decreases k
  {
    if k > 0 {
      var v := x * Pow2(k);
      assert v == 2 * (x * Pow2(k - 1));
      TrailingZerosOfShifted(x, k - 1, bits - 1);
    } else {
      assert x * Pow2(k) == x;
    }
  }

  /** Whatever `_prefix_from_ip_int` accepts is the prefix mask of the length it returns. */
  lemma {:induction false} PrefixOfMaskSound(v: nat, w: nat)
    requires PrefixOfMask(v, w).Some?
    ensures v == PrefixMask(PrefixOfMask(v, w).value, w)
  {
    var zeros := TrailingZeros(v, w);
    var p := w - zeros;
    TrailingZerosClear(v, w);
    ShiftRightBack(v, zeros);
    PrefixMaskProduct(p, w);
  }

  /** `_prefix_from_ip_int` accepts the prefix mask of every length 0..w. */
  lemma {:induction false} PrefixOfMaskComplete(p: nat, w: nat)
    requires p <= w
    ensures PrefixOfMask(PrefixMask(p, w), w) == Some(p)
  {
    PrefixMaskProduct(p, w);
    PrefixOfShiftedOnes(PrefixMask(p, w), p, w);
  }

  /** p one bits followed by w - p zero bits are read back as prefix length p. */
  lemma {:induction false} PrefixOfShiftedOnes(v: nat, p: nat, w: nat)
    requires p <= w && v == (Pow2(p) - 1) * Pow2(w - p)
    ensures PrefixOfMask(v, w) == Some(p)
  {
    var k, x := w - p, Pow2(p) - 1;
    if p > 0 {
      LowOnesOdd(p);
    }
    TrailingZerosOfShifted(x, k, w);
    ShiftRightOfShifted(x, k);
  }

  /** `_prefix_from_ip_int` accepts exactly the w + 1 prefix masks and returns their lengths. */
  lemma {:induction false} PrefixOfMaskIff(v: nat, p: nat, w: nat)
    ensures PrefixOfMask(v, w) == Some(p) <==> p <= w && v == PrefixMask(p, w)
  {
    if PrefixOfMask(v, w) == Some(p) {
      PrefixOfMaskSound(v, w);
    }
    if p <= w && v == PrefixMask(p, w) {
      PrefixOfMaskComplete(p, w);
    }
  }

  // ------------------------------------------------------------- aligned blocks

  /**
   * Clearing the k low bits of a lands on b, a multiple of 2^k, exactly when
   * a lies in the block [b, b + 2^k).
   */
  lemma {:induction false} RoundDownInBlock(a: nat, b: nat, k: nat)
    requires LowBits(b, k) == 0
    ensures a - LowBits(a, k) == b <==> b <= a < b + Pow2(k)
  {
    var d := Pow2(k);
    LowBitsMod(a, k);
    ShiftBack(b, k);
    if b <= a < b + d {
      DivModUnique(a, d, b / d, a - b);
    }
  }

  /** Between two distinct multiples of d there is room for a whole block of d. */
  lemma {:induction false} MultiplesApart(m: int, n: int, d: int)
    requires d > 0
    ensures m * d < n * d ==> m * d + d <= n * d
  {
    var t := n - m;
    assert n * d - m * d == t * d;
    ProductSign(t, d);
    if t >= 1 {
      MulAtLeast(t, d);
    }
  }

  lemma {:induction false} ProductSign(t: int, d: int)
    ensures t <= 0 && d >= 0 ==> t * d <= 0
  {
    if t <= 0 && d >= 0 {
      assert t * d == -((-t) * d);
    }
  }

  /** An aligned block of 2^k numbers that starts below 2^w ends within 2^w. */
  lemma {:induction false} AlignedBlockFits(b: nat, k: nat, w: nat)
    requires k <= w && b < Pow2(w) && LowBits(b, k) == 0
    ensures b + Pow2(k) <= Pow2(w)
  {
    ShiftBack(b, k);
    Pow2Add(w - k, k);
    assert w - k + k == w;
    MultiplesApart(b / Pow2(k), Pow2(w - k), Pow2(k));
  }

  /** A number with its k low bits clear also has its j low bits clear, for j <= k. */
  lemma {:induction false} AlignedCoarser(b: nat, j: nat, k: nat)
    requires j <= k && LowBits(b, k) == 0
    ensures LowBits(b, j) == 0
  {
    var d, c := Pow2(j), Pow2(k - j);
    ShiftBack(b, k);
    Pow2Add(k - j, j);
    assert k - j + j == k;
    var q := b / Pow2(k);
    assert b == q * (c * d);
    assert q * (c * d) == (q * c) * d;
    DivModUnique(b, d, q * c, 0);
    LowBitsMod(b, j);
  }

  /**
   * Two aligned blocks, one of 2^j and one of 2^k numbers with j <= k, are
   * either disjoint or the smaller one lies inside the larger.
   */
  lemma {:induction false} AlignedBlocksNest(x: nat, k: nat, y: nat, j: nat)
    requires j <= k && LowBits(x, k) == 0 && LowBits(y, j) == 0
    ensures x < y + Pow2(j) && y < x + Pow2(k) ==> x <= y && y + Pow2(j) <= x + Pow2(k)
  {
    var d, c := Pow2(j), Pow2(k - j);
    AlignedCoarser(x, j, k);
    Pow2Add(k - j, j);
    assert k - j + j == k;
    ShiftBack(x, j);
    ShiftBack(y, j);
    var qx, qy := x / d, y / d;
    assert x == qx * d && y == qy * d && Pow2(k) == c * d;
    NestedMultiples(qx, c, qy, d);
  }

  lemma {:induction false} NestedMultiples(qx: int, c: int, qy: int, d: int)
    requires d > 0
    ensures qx * d < qy * d + d && qy * d < qx * d + c * d ==> qx * d <= qy * d && qy * d + d <= qx * d + c * d
  {
    assert (qx + c) * d == qx * d + c * d;
    MultiplesApart(qy, qx, d);
    MultiplesApart(qy, qx + c, d);
  }
}
