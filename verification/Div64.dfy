/**
 * 64-by-32-bit division (osm/linux/div64.c): the MIPS32 shift-and-subtract loop, the three
 * do_div forms, and the two compiler entry points built on them.
 */
module Div64 {
  import opened Words

  datatype Arch = Mips32 | Mips64 | I386

  /** sll by one: the top bit is lost. */
  function ShiftLeft1(x: Word32): Word32 { Low32(2 * x) }

  /** srl by 31: the top bit, as 0 or 1. */
  function TopBit(x: Word32): Word32
  {
    if x >= 0x8000_0000 then 1 else 0
  }

  /** Label 0 for one register: shift left and bring a bit in at the bottom. */
  function ShiftIn(x: Word32, bit: Word32): Word32
    requires bit <= 1
  {
    ShiftLeft1(x) + bit
  }

  // ----- the MIPS32 loop

  /** Labels 1 to 3 of the loop: subtract base when the carry is set or mod is not below base. */
  function TrialSubtract(quot: Word32, mod: Word32, carry: Word32, base: Word32): (Word32, Word32)
  {
    if carry != 0 || mod >= base then (Low32(quot + 1), Low32(mod - base)) else (quot, mod)
  }

  /**
   * What holds of the registers when some dividend bits are still in the top of tmp: the bits
   * consumed so far divide into quot and mod, and rest is what is left of the dividend. The weight
   * of the bits still to come is `weight`, and scale counts the places tmp has moved.
   */
  ghost predicate Progress(n: nat, base: Word32, quot: int, mod: int, tmp: int, weight: nat, scale: nat, rest: nat)
  {
    && weight * scale == TWO32
    && 0 <= mod < base
    && 0 <= quot < scale
    && rest < weight
    && tmp == rest * scale
    && (quot * base + mod) * weight + rest == n
  }

  /** One bit leaves tmp. */
  lemma ShiftOut(tmp: Word32, half: nat, scale: nat, rest: nat) returns (rest': nat)
    requires half * scale == TWO31
    requires rest < 2 * half && tmp == rest * scale
    ensures rest == TopBit(tmp) * half + rest'
    ensures rest' < half && ShiftLeft1(tmp) == rest' * (2 * scale)
  {
    hide ShiftLeft1, TopBit;
    rest' := if rest >= half then rest - half else rest;
    TopAndShift(tmp);
    Distribute(rest, half, scale);
    Distribute(half, rest, scale);
    MulMono(rest' + 1, half, scale);
    MulMono(1, half, scale);
    Distribute(rest' + 1, 1, scale);
  }

  lemma TopAndShift(tmp: Word32)
    ensures TopBit(tmp) == if tmp >= TWO31 then 1 else 0
    ensures ShiftLeft1(tmp) == 2 * tmp - TopBit(tmp) * TWO32
  {
  }

  lemma Distribute(x: int, y: int, k: int)
    ensures (x - y) * k == x * k - y * k
    ensures x * (2 * k) == 2 * (x * k)
    ensures (x - y) * (2 * k) == 2 * (x * k) - 2 * (y * k)
  {
  }

  /** The wrapping subtraction is right also when twice the remainder does not fit a word. */
  lemma TrialResult(quot: nat, mod: Word32, bit: nat, base: Word32)
    requires bit <= 1 && mod < base && 2 * quot + 1 < TWO32
    ensures TrialSubtract(ShiftLeft1(quot), ShiftIn(mod, bit), TopBit(mod), base)
         == if 2 * mod + bit >= base then (2 * quot + 1, 2 * mod + bit - base) else (2 * quot, 2 * mod + bit)
  {
    assert ShiftLeft1(quot) == 2 * quot;
    var wide := 2 * mod + bit;
    if mod >= TWO31 {
      assert ShiftLeft1(mod) == 2 * mod - TWO32;
      assert Low32(wide - TWO32 - base) == wide - base;
    } else {
      assert ShiftLeft1(mod) == 2 * mod;
    }
  }

  lemma Recombine(quot: int, mod: int, bit: int, base: int, half: int, rest: int)
    ensures (2 * quot * base + (2 * mod + bit)) * half + rest == (quot * base + mod) * (2 * half) + (bit * half + rest)
    ensures (2 * quot + 1) * base + (2 * mod + bit - base) == 2 * quot * base + (2 * mod + bit)
  {
  }

  lemma ScaleFits(half: nat, scale: nat)
    requires 2 * half * scale == TWO32
    ensures half * scale == TWO31 && half * (2 * scale) == TWO32 && scale <= TWO31
  {
    assert half * scale == TWO31;
    MulMono(1, half, scale);
  }

  /** One full pass of the loop keeps the invariant. */
  lemma PassKeepsProgress(n: nat, base: Word32, quot: Word32, mod: Word32, tmp: Word32,
                          half: nat, scale: nat, rest: nat)
      returns (rest': nat)
    requires Progress(n, base, quot, mod, tmp, 2 * half, scale, rest)
    ensures var t := TrialSubtract(ShiftLeft1(quot), ShiftIn(mod, TopBit(tmp)), TopBit(mod), base);
            Progress(n, base, t.0, t.1, ShiftLeft1(tmp), half, 2 * scale, rest')
  {
    ScaleFits(half, scale);
    rest' := ShiftOut(tmp, half, scale, rest);
    TrialResult(quot, mod, TopBit(tmp), base);
    Recombine(quot, mod, TopBit(tmp), base, half, rest');
  }

  /** The registers (quot, mod) after the passes that are left. */
  ghost function Passes(quot: Word32, mod: Word32, tmp: Word32, base: Word32, left: nat): (Word32, Word32)
    decreases left
  {
    if left == 0 then (quot, mod)
    else
      var t := TrialSubtract(ShiftLeft1(quot), ShiftIn(mod, TopBit(tmp)), TopBit(mod), base);
      Passes(t.0, t.1, ShiftLeft1(tmp), base, left - 1)
  }

  lemma {:induction false} PassesDivide(n: nat, base: Word32, quot: Word32, mod: Word32, tmp: Word32,
                                        left: nat, scale: nat, rest: nat)
    requires Progress(n, base, quot, mod, tmp, Pow2(left), scale, rest)
    ensures Passes(quot, mod, tmp, base, left) == (n / base, n % base)
    decreases left
  {
    if left == 0 {
      DivModUnique(n, base, quot, mod);
    } else {
      var rest' := PassKeepsProgress(n, base, quot, mod, tmp, Pow2(left - 1), scale, rest);
      var t := TrialSubtract(ShiftLeft1(quot), ShiftIn(mod, TopBit(tmp)), TopBit(mod), base);
      PassesDivide(n, base, t.0, t.1, ShiftLeft1(tmp), left - 1, 2 * scale, rest');
    }
  }

  /** quot and mod are quotient and remainder of n by base. */
  ghost predicate Divides(n: nat, base: nat, quot: nat, mod: nat)
  {
    mod < base && quot * base + mod == n
  }

  /** The loop's registers are the exact result when high < base; otherwise no pair of words is. */
  lemma ExactIffHighBelowBase(high: Word32, low: Word32, base: Word32, quot: Word32, mod: Word32)
    requires (quot, mod) == Passes(0, high, low, base, 32) || base <= high
    ensures Divides(high * TWO32 + low, base, quot, mod) <==> high < base
  {
    if high < base {
      Pow2Of32();
      PassesDivide(high * TWO32 + low, base, 0, high, low, 32, 1, low);
      QuotientBounds(high * TWO32 + low, base, TWO32);
    } else {
      MulMono(quot, 0xffff_ffff, base);
    }
  }

  /**
   * do_div64_32 on MIPS32. The jump into the middle of the loop makes the first of its 33 passes
   * a bare trial subtraction; the other 32 shift one dividend bit in first.
   * The result is the exact quotient and remainder if and only if high < base.
   */
  method Mips32Loop(high: Word32, low: Word32, base: Word32) returns (quot: Word32, mod: Word32)
    ensures Divides(high * TWO32 + low, base, quot, mod) <==> high < base
  {
    var tmp, count := low, 33;
    quot, mod := 0, high;
    var t := TrialSubtract(quot, mod, 0, base);
    quot, mod, count := t.0, t.1, count - 1;
    ghost var all := Passes(quot, mod, tmp, base, 32);
    while count != 0
      invariant 0 <= count <= 32
      invariant Passes(quot, mod, tmp, base, count) == all
    {
      var bit, carry := TopBit(tmp), TopBit(mod);
      mod := ShiftIn(mod, bit);
      tmp := ShiftLeft1(tmp);
      quot := ShiftLeft1(quot);
      t := TrialSubtract(quot, mod, carry, base);
      quot, mod, count := t.0, t.1, count - 1;
    }
    ExactIffHighBelowBase(high, low, base, quot, mod);
  }

  lemma QuotientBounds(n: nat, base: nat, limit: nat)
    requires base > 0
    ensures 0 <= n / base <= n && n == n / base * base + n % base
    ensures n / base < limit <==> n < limit * base
  {
    var q := n / base;
    assert n == q * base + n % base;
    assert (q + 1) * base == q * base + base;
    MulCancelLess(0, q + 1, base);
    MulMono(1, base, q);
    if q < limit {
      MulMono(q + 1, limit, base);
    } else {
      MulMono(limit, q, base);
    }
  }

  // ----- do_div

  /** Long division by 2^32-sized digits. */
  lemma TwoDigits(n: Word64, base: Word32, high: int, upper: int, low: int)
    requires base > 0
    requires high == n / TWO32 / base && upper == n / TWO32 % base
    requires low == (upper * TWO32 + n % TWO32) / base
    ensures 0 <= high < TWO32 && 0 <= upper < base && 0 <= low < TWO32
    ensures high * TWO32 + low == n / base
    ensures (upper * TWO32 + n % TWO32) % base == n % base
  {
    var d := upper * TWO32 + n % TWO32;
    QuotientBounds(n / TWO32, base, TWO32);
    QuotientBounds(d, base, TWO32);
    assert n == n / TWO32 * TWO32 + n % TWO32;
    Digits(high, upper, low, base, n % TWO32, d % base);
    DivModUnique(n, base, high * TWO32 + low, d % base);
  }

  lemma Digits(high: int, upper: int, low: int, base: int, digit: int, rest: int)
    requires upper * TWO32 + digit == low * base + rest
    ensures (high * base + upper) * TWO32 + digit == (high * TWO32 + low) * base + rest
  {
    assert (high * TWO32 + low) * base == high * TWO32 * base + low * base;
  }

  method DoDivMips32(n: Word64, base: Word32) returns (q: Word64, r: Word32)
    requires base > 0
    ensures q == n / base && r == n % base
  {
    var high, low := n / TWO32, n % TWO32;
    var upper := high;
    if high != 0 {
      upper, high := high % base, high / base;
    }
    TwoDigits(n, base, high, upper, (upper * TWO32 + low) / base);
    ghost var digits := upper * TWO32 + low;
    low, r := Mips32Loop(upper, low, base);
    DivModUnique(digits, base, low, r);
    q := high * TWO32 + low;
  }

  method DoDivMips64(n: Word64, base: Word32) returns (q: Word64, r: Word32)
    requires base > 0
    ensures q == n / base && r == n % base
  {
    QuotientBounds(n, base, TWO64);
    r := n % base;
    q := n / base;
  }

  /** The divl instruction: the processor traps unless the quotient fits 32 bits. */
  method Divl(high: Word32, low: Word32, base: Word32) returns (q: Word32, r: Word32)
    requires base > 0 && (high * TWO32 + low) / base < TWO32
    ensures q == (high * TWO32 + low) / base && r == (high * TWO32 + low) % base
  {
    QuotientBounds(high * TWO32 + low, base, TWO32);
    q, r := (high * TWO32 + low) / base, (high * TWO32 + low) % base;
  }

  /** divl does not trap exactly when the upper word is below the divisor. */
  lemma DivlFitsIff(high: Word32, low: Word32, base: Word32)
    requires base > 0
    ensures (high * TWO32 + low) / base < TWO32 <==> high < base
  {
    QuotientBounds(high * TWO32 + low, base, TWO32);
  }

  method DoDivI386(n: Word64, base: Word32) returns (q: Word64, r: Word32)
    requires base > 0
    ensures q == n / base && r == n % base
  {
    var high, low := n / TWO32, n % TWO32;
    var upper := high;
    if high != 0 {
      upper := high % base;
      high := high / base;
    }
    DivlFitsIff(upper, low, base);
    TwoDigits(n, base, high, upper, (upper * TWO32 + low) / base);
    low, r := Divl(upper, low, base);
    q := high * TWO32 + low;
  }

  method DoDiv(arch: Arch, n: Word64, base: Word32) returns (q: Word64, r: Word32)
    requires base > 0
    ensures q == n / base && r == n % base
  {
    match arch
    case Mips32 => q, r := DoDivMips32(n, base);
    case Mips64 => q, r := DoDivMips64(n, base);
    case I386 => q, r := DoDivI386(n, base);
  }

  // ----- the entry points, which cut their 64-bit divisor to 32 bits

  method Udivdi3(arch: Arch, n: Word64, base: Word64) returns (q: Word64)
    requires Low32(base) != 0
    ensures q == n / Low32(base)
  {
    ghost var r;
    q, r := DoDiv(arch, n, Low32(base));
  }

  method Umoddi3(arch: Arch, n: Word64, base: Word64) returns (r: Word64)
    requires Low32(base) != 0
    ensures r == n % Low32(base)
  {
    var q;
    q, r := DoDiv(arch, n, Low32(base));
  }

  /** Cutting the divisor is harmless for every dividend if and only if it already fits 32 bits. */
  lemma CutDivisorExactIff(base: Word64)
    requires Low32(base) != 0
    ensures (forall n: Word64 :: n / Low32(base) == n / base) <==> base < TWO32
    ensures (forall n: Word64 :: n % Low32(base) == n % base) <==> base < TWO32
  {
    var cut := Low32(base);
    if base >= TWO32 {
      // base - 1 and cut witness the two failures
      var n: Word64 := base - 1;
      DivModUnique(n, base, 0, n);
      assert n / cut != 0 by {
        assert n == n / cut * cut + n % cut;
      }
      var m: Word64 := cut;
      DivModUnique(m, base, 0, m);
      DivModUnique(m, cut, 1, 0);
      assert n / cut != n / base;
      assert m % cut != m % base;
    }
  }
}
