/** `absl::uint128`: two 64-bit limbs, with the portable multiplication. */
module Uint128s {
  import opened Powers

  const W32: nat := 0x1_0000_0000
  const W64: nat := 0x1_0000_0000_0000_0000
  const W128: nat := W64 * W64

  type u64 = x: int | 0 <= x < W64

  // ------------------------------------------- the operations of `uint64_t`

  function Wrap(x: int): u64 { x % W64 }

  function Not64(x: u64): u64 { W64 - 1 - x }

  /** `x << k` and `x >> k`, defined for `k < 64` only. */
  function Shl64(x: u64, k: nat): u64
    requires k < 64
  {
    (x * Pow2(k)) % W64
  }

  function Shr64(x: u64, k: nat): (r: u64)
    requires k < 64
  {
    ShrinksByDivision(x, Pow2(k));
    x / Pow2(k)
  }

  lemma ShrinksByDivision(x: nat, d: nat)
    requires d > 0
    ensures 0 <= x / d <= x
  {
    assert x == d * (x / d) + x % d;
    MulSign(x / d, d);
  }

  /** The product with a positive number is at least as far from zero. */
  lemma MulSign(a: int, m: int)
    requires m > 0
    ensures a > 0 ==> a * m >= m && a * m >= a
    ensures a < 0 ==> a * m <= -m && a * m <= a
  {
    if a > 0 {
      MulNonNegative(a - 1, m);
      MulNonNegative(a, m - 1);
    } else if a < 0 {
      MulNonNegative(-a - 1, m);
      MulNonNegative(-a, m - 1);
    }
  }

  lemma MulNonNegative(a: int, b: int)
    requires a >= 0 && b >= 0
    ensures a * b >= 0
  {
  }

  /** The bitwise operators, bit by bit. */
  datatype BitOp = Or | And | Xor

  function Bit(op: BitOp, x: bool, y: bool): bool {
    match op
    case Or => x || y
    case And => x && y
    case Xor => x != y
  }

  function Bitwise(op: BitOp, x: nat, y: nat): nat {
    if x == 0 && y == 0 then 0
    else 2 * Bitwise(op, x / 2, y / 2) + if Bit(op, x % 2 == 1, y % 2 == 1) then 1 else 0
  }

  lemma {:induction false} BitwiseBound(op: BitOp, x: nat, y: nat, k: nat)
    requires x < Pow2(k) && y < Pow2(k)
    ensures Bitwise(op, x, y) < Pow2(k)
    decreases k
  {
    if k > 0 { BitwiseBound(op, x / 2, y / 2, k - 1); }
  }

  /** A bitwise operator acts on the high and the low part of a number separately. */
  lemma {:induction false} BitwiseSplit(op: BitOp, h1: nat, l1: nat, h2: nat, l2: nat, k: nat)
    requires l1 < Pow2(k) && l2 < Pow2(k)
    ensures Bitwise(op, h1 * Pow2(k) + l1, h2 * Pow2(k) + l2) == Bitwise(op, h1, h2) * Pow2(k) + Bitwise(op, l1, l2)
    decreases k
  {
    if k > 0 {
      var x, y := HalfSplit(h1, l1, k), HalfSplit(h2, l2, k);
      BitwiseSplit(op, h1, l1 / 2, h2, l2 / 2, k - 1);
      BitwiseStep(op, x, h1 * Pow2(k) + l1, y, h2 * Pow2(k) + l2);
      BitwiseStep(op, l1 / 2, l1, l2 / 2, l2);
      Doubled(Bitwise(op, h1, h2), k);
    }
  }

  /** Half of `h * 2^k + l`, rounded down. */
  function HalfSplit(h: nat, l: nat, k: nat): (r: nat)
    requires k > 0
    ensures h * Pow2(k) + l == 2 * r + l % 2
  {
    Doubled(h, k);
    h * Pow2(k - 1) + l / 2
  }

  lemma Doubled(h: nat, k: nat)
    requires k > 0
    ensures h * Pow2(k) == 2 * (h * Pow2(k - 1))
  {
  }

  lemma BitwiseStep(op: BitOp, x: nat, m: nat, y: nat, n: nat)
    requires m / 2 == x && n / 2 == y
    ensures Bitwise(op, m, n) == 2 * Bitwise(op, x, y) + if Bit(op, m % 2 == 1, n % 2 == 1) then 1 else 0
  {
  }

  lemma {:induction false} BitwiseZero(x: nat)
    ensures Bitwise(Or, x, 0) == x && Bitwise(Or, 0, x) == x && Bitwise(And, x, 0) == 0
  {
    if x != 0 { BitwiseZero(x / 2); }
  }

  /** Or joins a number without low bits and one without high bits. */
  lemma OrDisjoint(q: nat, y: nat, k: nat)
    requires y < Pow2(k)
    ensures Bitwise(Or, q * Pow2(k), y) == q * Pow2(k) + y
  {
    hide Bitwise, Pow2;
    BitwiseSplit(Or, q, 0, 0, y, k);
    BitwiseZero(q);
    BitwiseZero(y);
  }

  /** And with `2^k - 1` keeps the low `k` bits. */
  lemma {:induction false} AndMask(x: nat, k: nat)
    ensures Bitwise(And, x, Pow2(k) - 1) == x % Pow2(k)
    decreases k
  {
    hide Bitwise;
    if k == 0 {
      BitwiseZero(x);
    } else {
      AndMask(x / 2, k - 1);
      assert Pow2(k) == 2 * Pow2(k - 1);
      BitwiseStep(And, x / 2, x, Pow2(k - 1) - 1, Pow2(k) - 1);
      ModHalf(x, Pow2(k - 1));
    }
  }

  lemma ModHalf(x: nat, m: nat)
    requires m > 0
    ensures x % (2 * m) == 2 * (x / 2 % m) + x % 2
  {
    var q, r := x / 2 / m, x / 2 % m;
    assert x / 2 == q * m + r;
    assert x == q * (2 * m) + (2 * r + x % 2);
    Remainder(x, 2 * m, q, 2 * r + x % 2);
  }

  /** Division with remainder is unique. */
  lemma Remainder(x: int, m: nat, q: int, r: int)
    requires m > 0 && x == q * m + r && 0 <= r < m
    ensures x % m == r && x / m == q
  {
    var d := x / m - q;
    assert x == (x / m) * m + x % m;
    assert d * m == r - x % m;
    MulSign(d, m);
  }

  // ------------------------------------------------------------ the two limbs

  datatype Uint128 = Uint128(hi: u64, lo: u64)

  /** The number a pair of limbs stands for. */
  function Value(x: Uint128): (n: nat)
    ensures n < W128
  {
    x.hi * W64 + x.lo
  }

  lemma ValueInjective(x: Uint128, y: Uint128)
    requires Value(x) == Value(y)
    ensures x == y
  {
    Remainder(Value(x), W64, x.hi, x.lo);
    Remainder(Value(y), W64, y.hi, y.lo);
  }

  function FromUnsigned(v: u64): Uint128 { Uint128(0, v) }

  /** The constructors from signed types extend the sign into the high limb. */
  function FromSigned(v: int): Uint128
    requires -0x8000_0000_0000_0000 <= v < 0x8000_0000_0000_0000
  {
    Uint128(if v < 0 then W64 - 1 else 0, Wrap(v))
  }

  function Add(x: Uint128, y: Uint128): Uint128 {
    var result := Uint128(Wrap(x.hi + y.hi), Wrap(x.lo + y.lo));
    if result.lo < x.lo then Uint128(Wrap(result.hi + 1), result.lo) else result
  }

  function Sub(x: Uint128, y: Uint128): Uint128 {
    var result := Uint128(Wrap(x.hi - y.hi), Wrap(x.lo - y.lo));
    if x.lo < y.lo then Uint128(Wrap(result.hi - 1), result.lo) else result
  }

  function Neg(x: Uint128): Uint128 {
    var hi, lo := Not64(x.hi), Wrap(Not64(x.lo) + 1);
    Uint128(if lo == 0 then Wrap(hi + 1) else hi, lo)
  }

  function Limb(op: BitOp, x: u64, y: u64): u64 {
    Pow2Values();
    BitwiseBound(op, x, y, 64);
    Bitwise(op, x, y)
  }

  function Bits(op: BitOp, x: Uint128, y: Uint128): Uint128 {
    Uint128(Limb(op, x.hi, y.hi), Limb(op, x.lo, y.lo))
  }

  function Not(x: Uint128): Uint128 { Uint128(Not64(x.hi), Not64(x.lo)) }

  function Shl(x: Uint128, amount: nat): Uint128
    requires amount < 128
  {
    if amount < 64 then
      if amount != 0 then
        Uint128(Limb(Or, Shl64(x.hi, amount), Shr64(x.lo, 64 - amount)), Shl64(x.lo, amount))
      else x
    else Uint128(Shl64(x.lo, amount - 64), 0)
  }

  function Shr(x: Uint128, amount: nat): Uint128
    requires amount < 128
  {
    if amount < 64 then
      if amount != 0 then
        Uint128(Shr64(x.hi, amount), Limb(Or, Shr64(x.lo, amount), Shl64(x.hi, 64 - amount)))
      else x
    else Uint128(0, Shr64(x.hi, amount - 64))
  }

  /** The multiplication for compilers without a 128-bit type. */
  function Mul(x: Uint128, y: Uint128): Uint128 {
    var a32 := Shr64(x.lo, 32);
    var a00 := Limb(And, x.lo, 0xffff_ffff);
    var b32 := Shr64(y.lo, 32);
    var b00 := Limb(And, y.lo, 0xffff_ffff);
    var result := Uint128(Wrap(Wrap(Wrap(x.hi * y.lo) + Wrap(x.lo * y.hi)) + Wrap(a32 * b32)), Wrap(a00 * b00));
    var result := Add(result, Shl(FromUnsigned(Wrap(a32 * b00)), 32));
    Add(result, Shl(FromUnsigned(Wrap(a00 * b32)), 32))
  }

  // ------------------------------------------------ arithmetic modulo 2^128

  lemma ModShift(n: int, k: int)
    ensures (n + k * W128) % W128 == n % W128
  {
    Remainder(n + k * W128, W128, n / W128 + k, n % W128);
  }

  /** Dropping the carry out of the high limb does not matter. */
  lemma WrapHigh(h: int, l: int)
    ensures (Wrap(h) * W64 + l) % W128 == (h * W64 + l) % W128
  {
    ModShift(Wrap(h) * W64 + l, h / W64);
  }

  lemma ModMul(a: int, b: int, m: nat)
    requires m > 0
    ensures (a % m) * b % m == a * b % m
  {
    var q := a / m;
    var p := (a % m) * b;
    assert a == q * m + a % m;
    assert a * b == (q * b + p / m) * m + p % m by {
      assert p == (p / m) * m + p % m;
      assert (q * m + a % m) * b == (q * b) * m + p;
    }
    Remainder(a * b, m, q * b + p / m, p % m);
  }

  lemma ModAdd(a: int, b: int, m: nat)
    requires m > 0
    ensures (a % m + b) % m == (a + b) % m
  {
    var n := a % m + b;
    assert a == (a / m) * m + a % m;
    Remainder(a + b, m, a / m + n / m, n % m);
  }

  // ------------------------------------------------- sums, negation, ordering

  lemma AddValue(x: Uint128, y: Uint128)
    ensures Value(Add(x, y)) == (Value(x) + Value(y)) % W128
  {
    var carry := if x.lo + y.lo < W64 then 0 else 1;
    var h := x.hi + y.hi + carry;
    assert Add(x, y) == Uint128(if h < W64 then h else h - W64, x.lo + y.lo - carry * W64);
    Remainder(Value(x) + Value(y), W128, if h < W64 then 0 else 1, Value(Add(x, y)));
  }

  lemma SubValue(x: Uint128, y: Uint128)
    ensures Value(Sub(x, y)) == (Value(x) - Value(y)) % W128
  {
    var borrow := if x.lo < y.lo then 1 else 0;
    var h := x.hi - y.hi - borrow;
    assert Sub(x, y) == Uint128(if h < 0 then h + W64 else h, x.lo - y.lo + borrow * W64);
    Remainder(Value(x) - Value(y), W128, if h < 0 then -1 else 0, Value(Sub(x, y)));
  }

  lemma NegValue(x: Uint128)
    ensures Value(Neg(x)) == (0 - Value(x)) % W128
  {
    if x.lo == 0 {
      assert Neg(x) == Uint128(if x.hi == 0 then 0 else W64 - x.hi, 0);
    } else {
      assert Neg(x) == Uint128(W64 - 1 - x.hi, W64 - x.lo);
    }
    Remainder(0 - Value(x), W128, if Value(x) == 0 then 0 else -1, Value(Neg(x)));
  }

  /** `-x` is `~x + 1`. */
  lemma NegIsNotPlusOne(x: Uint128)
    ensures Value(Not(x)) == W128 - 1 - Value(x)
    ensures Value(Neg(x)) == (Value(Not(x)) + 1) % W128
  {
    NegValue(x);
    ModShift(0 - Value(x), 1);
  }

  /** The comparison operators compare the high limbs first. */
  predicate Less(x: Uint128, y: Uint128) {
    if x.hi == y.hi then x.lo < y.lo else x.hi < y.hi
  }

  predicate LessEqual(x: Uint128, y: Uint128) {
    if x.hi == y.hi then x.lo <= y.lo else x.hi <= y.hi
  }

  predicate Greater(x: Uint128, y: Uint128) {
    if x.hi == y.hi then x.lo > y.lo else x.hi > y.hi
  }

  predicate GreaterEqual(x: Uint128, y: Uint128) {
    if x.hi == y.hi then x.lo >= y.lo else x.hi >= y.hi
  }

  lemma OrderIsNumeric(x: Uint128, y: Uint128)
    ensures Less(x, y) <==> Value(x) < Value(y)
    ensures LessEqual(x, y) <==> Value(x) <= Value(y)
    ensures Greater(x, y) <==> Value(x) > Value(y)
    ensures GreaterEqual(x, y) <==> Value(x) >= Value(y)
  {
  }

  /** The limbwise bitwise operators are the bitwise operators on the value. */
  lemma BitsValue(op: BitOp, x: Uint128, y: Uint128)
    ensures Value(Bits(op, x, y)) == Bitwise(op, Value(x), Value(y))
  {
    hide Bitwise, Pow2;
    Pow2Values();
    BitwiseSplit(op, x.hi, x.lo, y.hi, y.lo, 64);
  }

  /** Bit `i` of a bitwise operator depends on bit `i` of the operands only. */
  lemma BitwiseBits(x: nat, y: nat, i: nat)
    ensures var a, b := x / Pow2(i) % 2, y / Pow2(i) % 2;
      && Bitwise(Or, x, y) / Pow2(i) % 2 == (if a == 1 || b == 1 then 1 else 0)
      && Bitwise(And, x, y) / Pow2(i) % 2 == (if a == 1 && b == 1 then 1 else 0)
      && Bitwise(Xor, x, y) / Pow2(i) % 2 == (if a == b then 0 else 1)
  {
    hide Bitwise, Pow2;
    BitAt(Or, x, y, i);
    BitAt(And, x, y, i);
    BitAt(Xor, x, y, i);
  }

  lemma {:induction false} BitAt(op: BitOp, x: nat, y: nat, i: nat)
    ensures Bitwise(op, x, y) / Pow2(i) % 2
         == if Bit(op, x / Pow2(i) % 2 == 1, y / Pow2(i) % 2 == 1) then 1 else 0
    decreases i
  {
    hide Bitwise, Pow2;
    BitwiseStep(op, x / 2, x, y / 2, y);
    var r, half := Bitwise(op, x, y), Bitwise(op, x / 2, y / 2);
    assert r / 2 == half && r % 2 == if Bit(op, x % 2 == 1, y % 2 == 1) then 1 else 0;
    if i == 0 {
      LowestBit(x);
      LowestBit(y);
      LowestBit(r);
    } else {
      BitAt(op, x / 2, y / 2, i - 1);
      UpperBit(x, i);
      UpperBit(y, i);
      UpperBit(r, i);
    }
  }

  lemma LowestBit(n: nat)
    ensures n / Pow2(0) == n
  {
  }

  lemma UpperBit(n: nat, i: nat)
    requires i > 0
    ensures n / Pow2(i) == n / 2 / Pow2(i - 1)
  {
    DivDiv(n, 2, Pow2(i - 1));
  }

  /** The operators add up: `and` collects the carries that `xor` leaves out. */
  lemma {:induction false} BitwiseSums(x: nat, y: nat)
    ensures Bitwise(Xor, x, y) + 2 * Bitwise(And, x, y) == x + y
    ensures Bitwise(Or, x, y) + Bitwise(And, x, y) == x + y
    decreases x + y
  {
    if x + y > 0 { BitwiseSums(x / 2, y / 2); }
  }

  lemma {:induction false} XorTwice(x: nat, y: nat)
    ensures Bitwise(Xor, Bitwise(Xor, x, y), y) == x
    decreases x + y
  {
    if x + y > 0 {
      XorTwice(x / 2, y / 2);
      BitwiseStep(Xor, Bitwise(Xor, x / 2, y / 2), Bitwise(Xor, x, y), y / 2, y);
    }
  }

  /** On 128-bit numbers: the sums of the operators, and `^` undoes itself. */
  lemma BitsSums(x: Uint128, y: Uint128)
    ensures Value(Bits(Xor, x, y)) + 2 * Value(Bits(And, x, y)) == Value(x) + Value(y)
    ensures Value(Bits(Or, x, y)) + Value(Bits(And, x, y)) == Value(x) + Value(y)
    ensures Bits(Xor, Bits(Xor, x, y), y) == x
  {
    hide Bitwise;
    BitwiseSums(x.hi, y.hi);
    BitwiseSums(x.lo, y.lo);
    XorTwice(x.hi, y.hi);
    XorTwice(x.lo, y.lo);
  }

  // ------------------------------------------------------------------- shifts

  lemma MulLess(q: nat, r: nat, p: nat)
    requires q < r && p > 0
    ensures q * p < p * r
  {
    MulNonNegative(r - q - 1, p);
  }

  lemma LessQuotient(n: nat, r: nat, p: nat)
    requires r > 0 && p > 0 && n < p * r
    ensures n / r < p
  {
    if n / r >= p {
      MulNonNegative(n / r - p, r);
    }
  }

  /** With `p * r == 2^64`, the high part of `n * p` is `n / r` and the low part
      a multiple of `p`. */
  lemma SplitProduct(n: u64, p: nat, r: nat)
    requires p > 0 && r > 0 && p * r == W64
    ensures n * p == (n / r) * W64 + (n % r) * p
    ensures n * p % W64 == (n % r) * p && n / r < p
  {
    var t, q := n / r, n % r;
    Regroup(t, r, q, p, n);
    MulLess(q, r, p);
    Remainder(n * p, W64, t, q * p);
    LessQuotient(n, r, p);
  }

  lemma Regroup(t: int, r: int, q: int, p: int, n: int)
    requires n == t * r + q
    ensures n * p == t * (p * r) + q * p
  {
  }

  lemma LimbProduct(h: int, l: int, p: int)
    ensures (h * W64 + l) * p == (h * p) * W64 + l * p
  {
  }

  /** `x << k` is multiplication by `2^k` modulo `2^128`, across the limb boundary. */
  lemma ShlValue(x: Uint128, k: nat)
    requires k < 128
    ensures Value(Shl(x, k)) == Value(x) * Pow2(k) % W128
  {
    if k == 0 {
      Remainder(Value(x), W128, 0, Value(x));
    } else if k < 64 {
      ShlWithinLimb(x, k);
    } else {
      ShlAcrossLimb(x, k);
    }
  }

  lemma PowersSplit(k: nat)
    requires k <= 64
    ensures Pow2(k) * Pow2(64 - k) == W64
  {
    Pow2Values();
    Pow2Add(k, 64 - k);
  }

  lemma ShlWithinLimb(x: Uint128, k: nat)
    requires 0 < k < 64
    ensures Value(Shl(x, k)) == Value(x) * Pow2(k) % W128
  {
    PowersSplit(k);
    ShlLimbs(x, k);
    ShlArithmetic(x.hi, x.lo, Pow2(k), Pow2(64 - k), Shl(x, k));
  }

  lemma ShlLimbs(x: Uint128, k: nat)
    requires 0 < k < 64
    ensures Shl(x, k).hi == (x.hi % Pow2(64 - k)) * Pow2(k) + x.lo / Pow2(64 - k)
    ensures Shl(x, k).lo == (x.lo % Pow2(64 - k)) * Pow2(k)
  {
    PowersSplit(k);
    SplitProduct(x.hi, Pow2(k), Pow2(64 - k));
    SplitProduct(x.lo, Pow2(k), Pow2(64 - k));
    OrDisjoint(x.hi % Pow2(64 - k), x.lo / Pow2(64 - k), k);
  }

  lemma ShlArithmetic(h: u64, l: u64, p: nat, r: nat, result: Uint128)
    requires p > 0 && r > 0 && p * r == W64
    requires result.hi == (h % r) * p + l / r && result.lo == (l % r) * p
    ensures Value(result) == (h * W64 + l) * p % W128
  {
    SplitProduct(h, p, r);
    SplitProduct(l, p, r);
    LimbProduct(h, l, p);
    Remainder((h * W64 + l) * p, W128, h / r, Value(result));
  }

  lemma ShlAcrossLimb(x: Uint128, k: nat)
    requires 64 <= k < 128
    ensures Value(Shl(x, k)) == Value(x) * Pow2(k) % W128
  {
    hide Pow2;
    var p := Pow2(k - 64);
    assert Pow2(k) == W64 * p by { Pow2Values(); Pow2Add(64, k - 64); }
    AcrossArithmetic(x.hi, x.lo, p, x.lo * p);
  }

  lemma AcrossArithmetic(h: nat, l: nat, p: nat, n: nat)
    requires n == l * p
    ensures n % W64 * W64 == (h * W64 + l) * (W64 * p) % W128
  {
    LimbProduct(h, l, p);
    Swap(h * W64 + l, p);
    CarryOut(h * p, n);
  }

  lemma Swap(a: int, p: int)
    ensures a * (W64 * p) == W64 * (a * p)
  {
  }

  lemma CarryOut(a: nat, n: nat)
    ensures n % W64 * W64 == W64 * (a * W64 + n) % W128
  {
    Remainder(W64 * (a * W64 + n), W128, a + n / W64, n % W64 * W64);
  }

  /** `x >> k` is division by `2^k`. */
  lemma ShrValue(x: Uint128, k: nat)
    requires k < 128
    ensures Value(Shr(x, k)) == Value(x) / Pow2(k)
  {
    if k == 0 {
    } else if k < 64 {
      ShrWithinLimb(x, k);
    } else {
      ShrAcrossLimb(x, k);
    }
  }

  lemma ShrWithinLimb(x: Uint128, k: nat)
    requires 0 < k < 64
    ensures Value(Shr(x, k)) == Value(x) / Pow2(k)
  {
    PowersSplit(k);
    ShrLimbs(x, k);
    ShrArithmetic(x.hi, x.lo, Pow2(k), Pow2(64 - k), Shr(x, k));
  }

  lemma ShrLimbs(x: Uint128, k: nat)
    requires 0 < k < 64
    ensures Shr(x, k).hi == x.hi / Pow2(k)
    ensures Shr(x, k).lo == (x.hi % Pow2(k)) * Pow2(64 - k) + x.lo / Pow2(k)
  {
    PowersSplit(k);
    SplitProduct(x.hi, Pow2(64 - k), Pow2(k));
    SplitProduct(x.lo, Pow2(64 - k), Pow2(k));
    OrDisjoint(x.hi % Pow2(k), x.lo / Pow2(k), 64 - k);
    BitwiseCommutes(Or, x.lo / Pow2(k), (x.hi % Pow2(k)) * Pow2(64 - k));
  }

  lemma ShrArithmetic(h: u64, l: u64, p: nat, r: nat, result: Uint128)
    requires p > 0 && p * r == W64
    requires result.hi == h / p && result.lo == (h % p) * r + l / p
    ensures Value(result) == (h * W64 + l) / p
  {
    Reassemble(h / p, h % p, l / p, l % p, p, r);
    Remainder(h * W64 + l, p, Value(result), l % p);
  }

  lemma Reassemble(h1: int, h0: int, l1: int, l0: int, p: int, r: int)
    requires p * r == W64
    ensures (h1 * p + h0) * W64 + (l1 * p + l0) == (h1 * W64 + (h0 * r + l1)) * p + l0
  {
    assert (h0 * r) * p == h0 * (p * r);
    LimbProduct(h1, h0 * r + l1, p);
  }

  lemma ShrAcrossLimb(x: Uint128, k: nat)
    requires 64 <= k < 128
    ensures Value(Shr(x, k)) == Value(x) / Pow2(k)
  {
    var p := Pow2(k - 64);
    assert Pow2(k) == W64 * p by { Pow2Values(); Pow2Add(64, k - 64); }
    ShrAcrossArithmetic(x.hi, x.lo, p);
  }

  lemma ShrAcrossArithmetic(h: nat, l: nat, p: nat)
    requires p > 0 && l < W64
    ensures h / p == (h * W64 + l) / (W64 * p)
  {
    var q, rest := h / p, h % p;
    assert h == q * p + rest;
    Swap(q, p);
    Remainder(h * W64 + l, W64 * p, q, rest * W64 + l);
  }

  lemma {:induction false} BitwiseCommutes(op: BitOp, x: nat, y: nat)
    ensures Bitwise(op, x, y) == Bitwise(op, y, x)
  {
    if x != 0 || y != 0 { BitwiseCommutes(op, x / 2, y / 2); }
  }

  /** Successive shifts add up while the total is below 128. */
  lemma ShiftsAddUp(x: Uint128, j: nat, k: nat)
    requires j + k < 128
    ensures Shl(Shl(x, j), k) == Shl(x, j + k)
    ensures Shr(Shr(x, j), k) == Shr(x, j + k)
  {
    LeftShiftsAddUp(x, j, k);
    RightShiftsAddUp(x, j, k);
  }

  lemma LeftShiftsAddUp(x: Uint128, j: nat, k: nat)
    requires j + k < 128
    ensures Shl(Shl(x, j), k) == Shl(x, j + k)
  {
    ShlValue(x, j);
    ShlValue(Shl(x, j), k);
    ShlValue(x, j + k);
    ModMulTwice(Value(x), Pow2(j), Pow2(k), W128);
    Pow2Add(j, k);
    ValueInjective(Shl(Shl(x, j), k), Shl(x, j + k));
  }

  lemma RightShiftsAddUp(x: Uint128, j: nat, k: nat)
    requires j + k < 128
    ensures Shr(Shr(x, j), k) == Shr(x, j + k)
  {
    ShrValue(x, j);
    ShrValue(Shr(x, j), k);
    ShrValue(x, j + k);
    DivDiv(Value(x), Pow2(j), Pow2(k));
    Pow2Add(j, k);
    ValueInjective(Shr(Shr(x, j), k), Shr(x, j + k));
  }

  lemma ModMulTwice(v: int, a: int, b: int, m: nat)
    requires m > 0
    ensures v * a % m * b % m == v * (a * b) % m
  {
    ModMul(v * a, b, m);
    assert v * a * b == v * (a * b);
  }

  lemma DivDiv(n: nat, a: nat, b: nat)
    requires a > 0 && b > 0
    ensures a * b > 0 && n / a / b == n / (a * b)
  {
    var q, r := n / a, n % a;
    assert n == q * a + r;
    assert q == (q / b) * b + q % b;
    DivDivSum(q / b, q % b, r, a, b, q);
    Remainder(n, a * b, q / b, q % b * a + r);
  }

  lemma DivDivSum(t: nat, s: nat, r: nat, a: nat, b: nat, q: nat)
    requires a > 0 && q == t * b + s && s < b && r < a
    ensures q * a + r == t * (a * b) + (s * a + r) && s * a + r < a * b && a * b > 0
  {
    Regroup(t, b, s, a, q);
    MulNonNegative(b - 1 - s, a);
    MulSign(a, b);
  }

  // ----------------------------------------------------------- multiplication

  lemma Halves(n: u64)
    ensures Shr64(n, 32) == n / W32 && Limb(And, n, 0xffff_ffff) == n % W32
    ensures n == (n / W32) * W32 + n % W32 && 0 <= n / W32 < W32
  {
    Pow2Values();
    AndMask(n, 32);
  }

  lemma HalfProduct(a: nat, b: nat)
    requires a < W32 && b < W32
    ensures 0 <= a * b < W64
  {
    MulNonNegative(a, b);
    MulNonNegative(W32 - 1 - a, b);
  }

  lemma WrapSum(a: int, b: int, c: int)
    ensures Wrap(Wrap(Wrap(a) + Wrap(b)) + Wrap(c)) == Wrap(a + b + c)
  {
  }

  /** The 128-bit product of two limbs from their halves. */
  lemma LimbTimesLimb(a1: int, a0: int, b1: int, b0: int)
    ensures (a1 * W32 + a0) * (b1 * W32 + b0) == (a1 * b1) * W64 + a0 * b0 + (a1 * b0) * W32 + (a0 * b1) * W32
  {
    Expand(a1 * W32, a0, b1 * W32, b0);
    assert (a1 * W32) * (b1 * W32) == (a1 * b1) * W64;
    assert (a1 * W32) * b0 == (a1 * b0) * W32;
    assert a0 * (b1 * W32) == (a0 * b1) * W32;
  }

  lemma Expand(a: int, b: int, c: int, d: int)
    ensures (a + b) * (c + d) == a * c + a * d + b * c + b * d
  {
  }

  lemma FullProduct(h: int, l: int, h': int, l': int)
    ensures (h * W64 + l) * (h' * W64 + l') == (h * h') * W128 + ((h * l' + l * h') * W64 + l * l')
  {
    Expand(h * W64, l, h' * W64, l');
    assert (h * W64) * (h' * W64) == (h * h') * W128;
    assert (h * W64) * l' == (h * l') * W64 && l * (h' * W64) == (l * h') * W64;
  }

  lemma AddTo(x: Uint128, y: Uint128, n: int)
    requires Value(x) == n % W128
    ensures Value(Add(x, y)) == (n + Value(y)) % W128
  {
    hide Add;
    AddValue(x, y);
    ModAdd(n, Value(y), W128);
  }

  /** A cross term, shifted by half a limb. */
  function Cross(e: u64): Uint128 { Shl(FromUnsigned(e), 32) }

  lemma CrossValue(e: u64)
    ensures Value(Cross(e)) == e * W32
  {
    ShlValue(FromUnsigned(e), 32);
    Pow2Values();
    Remainder(e * W32, W128, 0, e * W32);
  }

  lemma AddCrosses(first: Uint128, e: u64, f: u64, n: int)
    requires Value(first) == n % W128
    ensures Value(Add(Add(first, Cross(e)), Cross(f))) == (n + e * W32 + f * W32) % W128
  {
    hide Add, Shl;
    CrossValue(e);
    CrossValue(f);
    AddTo(first, Cross(e), n);
    AddTo(Add(first, Cross(e)), Cross(f), n + e * W32);
  }

  /** The portable multiplication is multiplication modulo `2^128`. */
  lemma MulValue(x: Uint128, y: Uint128)
    ensures Value(Mul(x, y)) == Value(x) * Value(y) % W128
  {
    hide Mul, Schoolbook;
    var a32, a00, b32, b00 := x.lo / W32, x.lo % W32, y.lo / W32, y.lo % W32;
    var n := Schoolbook(x.hi, x.lo, y.hi, y.lo, a32, a00, b32, b00);
    MulIsSchoolbook(x, y, a32, a00, b32, b00);
    SplitInHalves(x.lo);
    SplitInHalves(y.lo);
    SchoolbookSum(x.hi, x.lo, y.hi, y.lo, a32, a00, b32, b00);
    ModShift(n, x.hi * y.hi);
  }

  lemma SplitInHalves(n: u64)
    ensures n == n / W32 * W32 + n % W32
  {
  }

  /** The sum of the partial products that matter modulo `2^128`. */
  function Schoolbook(xh: int, xl: int, yh: int, yl: int, a32: int, a00: int, b32: int, b00: int): int {
    (xh * yl + xl * yh + a32 * b32) * W64 + a00 * b00 + (a32 * b00) * W32 + (a00 * b32) * W32
  }

  lemma MulIsSchoolbook(x: Uint128, y: Uint128, a32: nat, a00: nat, b32: nat, b00: nat)
    requires a32 == x.lo / W32 && a00 == x.lo % W32 && b32 == y.lo / W32 && b00 == y.lo % W32
    ensures Value(Mul(x, y)) == Schoolbook(x.hi, x.lo, y.hi, y.lo, a32, a00, b32, b00) % W128
  {
    hide Mul, Add, Shl;
    MulParts(x, y, a32, a00, b32, b00);
    PartsValue(x.hi * y.lo + x.lo * y.hi + a32 * b32, a00 * b00, a32 * b00, a00 * b32, Mul(x, y));
  }

  /** The number represented by a product whose limbs are these. */
  lemma PartsValue(h: int, d: u64, e: u64, f: u64, product: Uint128)
    requires product == Add(Add(Uint128(Wrap(h), d), Cross(e)), Cross(f))
    ensures Value(product) == (h * W64 + d + e * W32 + f * W32) % W128
  {
    hide Add, Shl, Wrap;
    FirstValue(h, d, Uint128(Wrap(h), d));
    AddCrosses(Uint128(Wrap(h), d), e, f, h * W64 + d);
  }

  /** None of the half products overflows, so the code's limbs are these. */
  lemma MulParts(x: Uint128, y: Uint128, a32: nat, a00: nat, b32: nat, b00: nat)
    requires a32 == x.lo / W32 && a00 == x.lo % W32 && b32 == y.lo / W32 && b00 == y.lo % W32
    ensures 0 <= a32 * b32 < W64 && 0 <= a00 * b00 < W64 && 0 <= a32 * b00 < W64 && 0 <= a00 * b32 < W64
    ensures Mul(x, y) == Add(Add(Uint128(Wrap(x.hi * y.lo + x.lo * y.hi + a32 * b32), a00 * b00),
                                 Cross(a32 * b00)), Cross(a00 * b32))
  {
    hide Add, Shl;
    Halves(x.lo);
    Halves(y.lo);
    HalfProduct(a32, b32);
    HalfProduct(a00, b00);
    HalfProduct(a32, b00);
    HalfProduct(a00, b32);
    WrapSum(x.hi * y.lo, x.lo * y.hi, a32 * b32);
    WrapSmall(a00 * b00);
    WrapSmall(a32 * b00);
    WrapSmall(a00 * b32);
  }

  lemma WrapSmall(n: int)
    requires 0 <= n < W64
    ensures Wrap(n) == n
  {
  }

  lemma FirstValue(h: int, d: u64, first: Uint128)
    requires first == Uint128(Wrap(h), d)
    ensures Value(first) == (h * W64 + d) % W128
  {
    WrapHigh(h, d);
    Remainder(Value(first), W128, 0, Value(first));
  }

  lemma SchoolbookSum(xh: int, xl: int, yh: int, yl: int, a32: int, a00: int, b32: int, b00: int)
    requires xl == a32 * W32 + a00 && yl == b32 * W32 + b00
    ensures (xh * W64 + xl) * (yh * W64 + yl)
         == Schoolbook(xh, xl, yh, yl, a32, a00, b32, b00) + (xh * yh) * W128
  {
    LimbTimesLimb(a32, a00, b32, b00);
    FullProduct(xh, xl, yh, yl);
  }

  // ------------------------------------------- the ring of integers mod 2^128

  const ZERO := Uint128(0, 0)

  /** The limbs represent the integer `n`, up to multiples of `2^128`. */
  ghost predicate Is(x: Uint128, n: int) { Value(x) == n % W128 }

  lemma SelfIs(x: Uint128)
    ensures Is(x, Value(x))
  {
    Remainder(Value(x), W128, 0, Value(x));
  }

  lemma SameNumber(x: Uint128, y: Uint128, n: int)
    requires Is(x, n) && Is(y, n)
    ensures x == y
  {
    ValueInjective(x, y);
  }

  lemma AddCommutes(x: Uint128, y: Uint128)
    ensures Add(x, y) == Add(y, x)
  {
    hide Add;
    AddValue(x, y);
    AddValue(y, x);
    ValueInjective(Add(x, y), Add(y, x));
  }

  lemma AddIs(x: Uint128, y: Uint128, m: int, n: int)
    requires Is(x, m) && Is(y, n)
    ensures Is(Add(x, y), m + n)
  {
    hide Add;
    AddTo(x, y, m);
    ModAdd(n, m, W128);
  }

  lemma SubIs(x: Uint128, y: Uint128, m: int, n: int)
    requires Is(x, m) && Is(y, n)
    ensures Is(Sub(x, y), m - n)
  {
    hide Sub;
    SubValue(x, y);
    ModSub(m, n, W128);
  }

  lemma NegIs(x: Uint128, n: int)
    requires Is(x, n)
    ensures Is(Neg(x), -n)
  {
    hide Neg;
    NegValue(x);
    ModSub(0, n, W128);
  }

  lemma MulIs(x: Uint128, y: Uint128, m: int, n: int)
    requires Is(x, m) && Is(y, n)
    ensures Is(Mul(x, y), m * n)
  {
    hide Mul;
    MulValue(x, y);
    ModMul(m, Value(y), W128);
    MulSwap(m, n % W128);
    ModMul(n, m, W128);
    MulSwap(n, m);
  }

  lemma MulSwap(a: int, b: int)
    ensures a * b == b * a
  {
  }

  lemma AddAssociates(x: Uint128, y: Uint128, z: Uint128)
    ensures Add(Add(x, y), z) == Add(x, Add(y, z))
  {
    hide Add;
    AddCommutes(x, Add(y, z));
    AddValue(x, y);
    AddValue(y, z);
    AddTo(Add(x, y), z, Value(x) + Value(y));
    AddTo(Add(y, z), x, Value(y) + Value(z));
    ValueInjective(Add(Add(x, y), z), Add(x, Add(y, z)));
  }

  lemma SubIsInverse(x: Uint128, y: Uint128)
    ensures Add(x, ZERO) == x && Sub(Add(x, y), y) == x
  {
    hide Add, Sub;
    AddValue(x, ZERO);
    Remainder(Value(x), W128, 0, Value(x));
    ValueInjective(Add(x, ZERO), x);
    AddValue(x, y);
    SubValue(Add(x, y), y);
    ModAdd(Value(x) + Value(y), 0 - Value(y), W128);
    ValueInjective(Sub(Add(x, y), y), x);
  }

  lemma NegIsInverse(x: Uint128, y: Uint128)
    ensures Add(x, Neg(x)) == ZERO && Sub(x, y) == Add(x, Neg(y))
  {
    hide Add, Sub, Neg;
    SubFromNeg(x, y);
    SubFromNeg(x, x);
    SubValue(x, x);
    ValueInjective(Sub(x, x), ZERO);
  }

  lemma SubFromNeg(x: Uint128, y: Uint128)
    ensures Sub(x, y) == Add(x, Neg(y))
  {
    hide Add, Sub, Neg;
    SubValue(x, y);
    NegValue(y);
    AddCommutes(x, Neg(y));
    AddTo(Neg(y), x, 0 - Value(y));
    ValueInjective(Sub(x, y), Add(x, Neg(y)));
  }

  lemma MulCommutes(x: Uint128, y: Uint128)
    ensures Mul(x, y) == Mul(y, x)
  {
    hide Mul;
    SelfIs(x);
    SelfIs(y);
    MulIs(x, y, Value(x), Value(y));
    MulIs(y, x, Value(y), Value(x));
    MulSwap(Value(x), Value(y));
    SameNumber(Mul(x, y), Mul(y, x), Value(x) * Value(y));
  }

  lemma MulAssociates(x: Uint128, y: Uint128, z: Uint128)
    ensures Mul(Mul(x, y), z) == Mul(x, Mul(y, z))
  {
    hide Mul;
    MulValue(x, y);
    MulValue(y, z);
    MulValue(Mul(x, y), z);
    MulValue(x, Mul(y, z));
    TripleProduct(Value(x), Value(y), Value(z));
    ValueInjective(Mul(Mul(x, y), z), Mul(x, Mul(y, z)));
  }

  lemma TripleProduct(a: int, b: int, c: int)
    ensures (a * b % W128) * c % W128 == a * (b * c % W128) % W128
  {
    ModMul(a * b, c, W128);
    ModMul(b * c, a, W128);
    MulSwap(a, b * c % W128);
    assert a * b * c == b * c * a;
  }

  lemma MulDistributes(x: Uint128, y: Uint128, z: Uint128)
    ensures Mul(x, Add(y, z)) == Add(Mul(x, y), Mul(x, z))
  {
    hide Add, Mul;
    AddValue(y, z);
    MulValue(x, Add(y, z));
    MulValue(x, y);
    MulValue(x, z);
    AddValue(Mul(x, y), Mul(x, z));
    SumOfProducts(Value(x), Value(y), Value(z));
    ValueInjective(Mul(x, Add(y, z)), Add(Mul(x, y), Mul(x, z)));
  }

  lemma SumOfProducts(a: int, b: int, c: int)
    ensures a * ((b + c) % W128) % W128 == (a * b % W128 + a * c % W128) % W128
  {
    MulSwap(a, (b + c) % W128);
    ModMul(b + c, a, W128);
    ModAdd(a * b, a * c % W128, W128);
    ModAdd(a * c, a * b, W128);
    assert (b + c) * a == a * b + a * c;
  }

  lemma MulByOne(x: Uint128)
    ensures Mul(x, FromUnsigned(1)) == x
  {
    hide Mul;
    MulValue(x, FromUnsigned(1));
    Remainder(Value(x), W128, 0, Value(x));
    ValueInjective(Mul(x, FromUnsigned(1)), x);
  }

  lemma ModSub(a: int, b: int, m: nat)
    requires m > 0
    ensures (a - b % m) % m == (a - b) % m && (a % m - b % m) % m == (a - b) % m
  {
    ModAdd(a, 0 - b % m, m);
    var n := a - b % m;
    assert b == (b / m) * m + b % m;
    assert n == (n / m) * m + n % m;
    Remainder(a - b, m, n / m - b / m, n % m);
  }

  // -------------------------------------------------------- signed operands

  predicate Signed64(v: int) { -0x8000_0000_0000_0000 <= v < 0x8000_0000_0000_0000 }

  /** Sign extension is two's complement: the value is `v` modulo `2^128`. */
  lemma SignedValue(v: int)
    requires Signed64(v)
    ensures Value(FromSigned(v)) == v % W128
  {
    Remainder(v, W128, if v < 0 then -1 else 0, Value(FromSigned(v)));
  }

  /** Sums, differences, negations and products of signed operands are right
      modulo `2^128`, and exact when the signed result fits. */
  lemma SignedArithmetic(a: int, b: int)
    requires Signed64(a) && Signed64(b)
    ensures Value(Add(FromSigned(a), FromSigned(b))) == (a + b) % W128
    ensures Value(Sub(FromSigned(a), FromSigned(b))) == (a - b) % W128
    ensures Value(Mul(FromSigned(a), FromSigned(b))) == (a * b) % W128
    ensures Value(Neg(FromSigned(a))) == (-a) % W128
    ensures Signed64(a + b) ==> Add(FromSigned(a), FromSigned(b)) == FromSigned(a + b)
    ensures Signed64(a - b) ==> Sub(FromSigned(a), FromSigned(b)) == FromSigned(a - b)
    ensures Signed64(-a) ==> Neg(FromSigned(a)) == FromSigned(-a)
    ensures Signed64(a * b) ==> Mul(FromSigned(a), FromSigned(b)) == FromSigned(a * b)
  {
    hide Add, Sub, Mul, Neg;
    SignedSums(a, b);
    SignedProduct(a, b);
  }

  lemma SignedSums(a: int, b: int)
    requires Signed64(a) && Signed64(b)
    ensures Is(Add(FromSigned(a), FromSigned(b)), a + b)
    ensures Is(Sub(FromSigned(a), FromSigned(b)), a - b)
    ensures Is(Neg(FromSigned(a)), -a)
    ensures Signed64(a + b) ==> Add(FromSigned(a), FromSigned(b)) == FromSigned(a + b)
    ensures Signed64(a - b) ==> Sub(FromSigned(a), FromSigned(b)) == FromSigned(a - b)
    ensures Signed64(-a) ==> Neg(FromSigned(a)) == FromSigned(-a)
  {
    hide Add, Sub, Neg;
    SignedValue(a);
    SignedValue(b);
    AddIs(FromSigned(a), FromSigned(b), a, b);
    SubIs(FromSigned(a), FromSigned(b), a, b);
    NegIs(FromSigned(a), a);
    if Signed64(a + b) {
      SignedValue(a + b);
      SameNumber(Add(FromSigned(a), FromSigned(b)), FromSigned(a + b), a + b);
    }
    if Signed64(a - b) {
      SignedValue(a - b);
      SameNumber(Sub(FromSigned(a), FromSigned(b)), FromSigned(a - b), a - b);
    }
    if Signed64(-a) {
      SignedValue(-a);
      SameNumber(Neg(FromSigned(a)), FromSigned(-a), -a);
    }
  }

  lemma SignedProduct(a: int, b: int)
    requires Signed64(a) && Signed64(b)
    ensures Is(Mul(FromSigned(a), FromSigned(b)), a * b)
    ensures Signed64(a * b) ==> Mul(FromSigned(a), FromSigned(b)) == FromSigned(a * b)
  {
    hide Mul;
    SignedValue(a);
    SignedValue(b);
    MulIs(FromSigned(a), FromSigned(b), a, b);
    if Signed64(a * b) {
      SignedValue(a * b);
      SameNumber(Mul(FromSigned(a), FromSigned(b)), FromSigned(a * b), a * b);
    }
  }

  // ------------------------------------------------------ compound assignment

  /** A `uint128` variable, whose members change the limbs in place. */
  class Variable {
    var hi: u64
    var lo: u64

    constructor (x: Uint128)
      ensures Get() == x
    {
      hi, lo := x.hi, x.lo;
    }

    function Get(): Uint128
      reads this
    {
      Uint128(hi, lo)
    }

    method Set(x: Uint128)
      modifies this
      ensures Get() == x
    {
      hi, lo := x.hi, x.lo;
    }

    method AddAssign(y: Uint128)
      modifies this
      ensures Value(Get()) == (old(Value(Get())) + Value(y)) % W128
    {
      AddValue(Get(), y);
      Set(Add(Get(), y));
    }

    method SubAssign(y: Uint128)
      modifies this
      ensures Value(Get()) == (old(Value(Get())) - Value(y)) % W128
    {
      SubValue(Get(), y);
      Set(Sub(Get(), y));
    }

    method MulAssign(y: Uint128)
      modifies this
      ensures Value(Get()) == old(Value(Get())) * Value(y) % W128
    {
      MulValue(Get(), y);
      Set(Mul(Get(), y));
    }

    method ShlAssign(amount: nat)
      requires amount < 128
      modifies this
      ensures Value(Get()) == old(Value(Get())) * Pow2(amount) % W128
    {
      ShlValue(Get(), amount);
      Set(Shl(Get(), amount));
    }

    method ShrAssign(amount: nat)
      requires amount < 128
      modifies this
      ensures Value(Get()) == old(Value(Get())) / Pow2(amount)
    {
      ShrValue(Get(), amount);
      Set(Shr(Get(), amount));
    }

    /** `|=`, `&=` and `^=`, one limb after the other. */
    method BitsAssign(op: BitOp, y: Uint128)
      modifies this
      ensures Value(Get()) == Bitwise(op, old(Value(Get())), Value(y))
    {
      BitsValue(op, Get(), y);
      hi := Limb(op, hi, y.hi);
      lo := Limb(op, lo, y.lo);
    }

    method PreIncrement()
      modifies this
      ensures Value(Get()) == (old(Value(Get())) + 1) % W128
    {
      AddAssign(FromSigned(1));
    }

    method PostIncrement() returns (r: Uint128)
      modifies this
      ensures r == old(Get()) && Value(Get()) == (Value(r) + 1) % W128
    {
      r := Get();
      AddAssign(FromSigned(1));
    }

    method PreDecrement()
      modifies this
      ensures Value(Get()) == (old(Value(Get())) - 1) % W128
    {
      SubAssign(FromSigned(1));
    }

    method PostDecrement() returns (r: Uint128)
      modifies this
      ensures r == old(Get()) && Value(Get()) == (Value(r) - 1) % W128
    {
      r := Get();
      SubAssign(FromSigned(1));
    }
  }
}
