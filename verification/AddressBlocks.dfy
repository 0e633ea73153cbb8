/** The block size function Cskip of distributed address assignment (Zigbee specification,
    section 3.6.1.6): its closed form, its recurrence, and its machine arithmetic. */
module AddressBlocks {
  import opened Arithmetic
  import opened Wrappers

  /** The stack-profile parameters Cm, Rm and Lm. */
  datatype Profile = Profile(maxChildren: nat, maxRouters: nat, maxDepth: nat) {
    ghost predicate Valid() { maxRouters <= maxChildren && 1 <= maxDepth }

    /** The parameters are octets. */
    ghost predicate Octets() { maxChildren < 0x100 && maxDepth < 0x100 }
  }

  function Pow(base: nat, exponent: nat): nat {
    if exponent == 0 then 1 else base * Pow(base, exponent - 1)
  }

  /** Cskip(d) over the integers. */
  function CSkip(p: Profile, d: nat): int
    requires d < p.maxDepth
  {
    var k := p.maxDepth - d - 1;
    if p.maxRouters == 1 then 1 + p.maxChildren * k
    else (1 + p.maxChildren - p.maxRouters - p.maxChildren * Pow(p.maxRouters, k)) / (1 - p.maxRouters)
  }

  /** The number of addresses owned by a router at depth d: its own, one block for each of its
      Rm router children, and one for each of its Cm - Rm end devices. */
  ghost function BlockSize(p: Profile, d: nat): nat
    requires p.Valid() && d <= p.maxDepth
    decreases p.maxDepth - d
  {
    if d == p.maxDepth then 1
    else 1 + p.maxRouters * BlockSize(p, d + 1) + (p.maxChildren - p.maxRouters)
  }

  /** All addresses of the tree fit in 16 bits. */
  ghost predicate FitsNetworkAddress(p: Profile) {
    p.Valid() && p.Octets() && BlockSize(p, 0) <= 0x1_0000
  }

  // ----- the closed form ----------------------------------------------------------------

  /** (Rm - 1) * size = Cm * Rm^k - (1 + Cm - Rm) for a block with k levels below it. */
  lemma {:induction false} BlockSizeTimesRouters(p: Profile, d: nat)
    requires p.Valid() && d < p.maxDepth
    ensures (p.maxRouters - 1) * BlockSize(p, d + 1)
            == p.maxChildren * Pow(p.maxRouters, p.maxDepth - d - 1) - (1 + p.maxChildren - p.maxRouters)
    decreases p.maxDepth - d
  {
    if d + 1 < p.maxDepth {
      BlockSizeTimesRouters(p, d + 1);
      GeometricStep(p.maxChildren, p.maxRouters, Pow(p.maxRouters, p.maxDepth - d - 2), BlockSize(p, d + 2));
    }
  }

  lemma GeometricStep(cm: int, rm: int, power: int, size: int)
    requires (rm - 1) * size == cm * power - (1 + cm - rm)
    ensures (rm - 1) * (1 + rm * size + (cm - rm)) == cm * (rm * power) - (1 + cm - rm)
  {
    calc {
      (rm - 1) * (1 + rm * size + (cm - rm));
      { MulDistributes(rm * size, 1 + cm - rm, rm - 1); }
      (rm - 1) * (rm * size) + (rm - 1) * (1 + cm - rm);
      { MulAssociates(rm - 1, rm, size); }
      rm * ((rm - 1) * size) + (rm - 1) * (1 + cm - rm);
      rm * (cm * power - (1 + cm - rm)) + (rm - 1) * (1 + cm - rm);
      { MulDistributes(cm * power, 1 + cm - rm, rm); MulDistributes(rm, 1, 1 + cm - rm); }
      rm * (cm * power) - (1 + cm - rm);
      { MulAssociates(cm, rm, power); }
      cm * (rm * power) - (1 + cm - rm);
    }
  }

  lemma {:induction false} BlockSizeOfChain(p: Profile, d: nat)
    requires p.Valid() && p.maxRouters == 1 && d < p.maxDepth
    ensures BlockSize(p, d + 1) == 1 + p.maxChildren * (p.maxDepth - d - 1)
    decreases p.maxDepth - d
  {
    if d + 1 < p.maxDepth {
      BlockSizeOfChain(p, d + 1);
      MulDistributes(p.maxDepth - d - 2, 1, p.maxChildren);
    }
  }

  /** Both branches of the source compute the block size of a router child of a router at depth
      d, and the division they make leaves no remainder. */
  lemma CSkipIsBlockSize(p: Profile, d: nat)
    requires p.Valid() && d < p.maxDepth
    ensures CSkip(p, d) == BlockSize(p, d + 1)
    ensures p.maxRouters != 1 ==>
              (1 + p.maxChildren - p.maxRouters - p.maxChildren * Pow(p.maxRouters, p.maxDepth - d - 1))
              % (1 - p.maxRouters) == 0
  {
    if p.maxRouters == 1 {
      BlockSizeOfChain(p, d);
    } else {
      BlockSizeTimesRouters(p, d);
      ExactQuotient(1 + p.maxChildren - p.maxRouters, p.maxChildren * Pow(p.maxRouters, p.maxDepth - d - 1),
                    p.maxRouters, BlockSize(p, d + 1));
    }
  }

  lemma ExactQuotient(a: int, b: int, rm: int, size: int)
    requires rm != 1 && (rm - 1) * size == b - a
    ensures (a - b) / (1 - rm) == size && (a - b) % (1 - rm) == 0
  {
    MulDistributes(0, rm - 1, size);
    DivideExactly(a - b, 1 - rm, size);
  }

  /** 1 + base + ... + base^(n - 1). */
  function PowerSum(base: nat, n: nat): nat {
    if n == 0 then 0 else PowerSum(base, n - 1) + Pow(base, n - 1)
  }

  lemma {:induction false} PowerSumStep(base: nat, n: nat)
    requires n >= 1
    ensures PowerSum(base, n) == 1 + base * PowerSum(base, n - 1)
  {
    if n > 1 {
      PowerSumStep(base, n - 1);
      MulDistributes(PowerSum(base, n - 2), Pow(base, n - 2), base);
    }
  }

  /** The form that stays non-negative: 1 + Cm * (1 + Rm + ... + Rm^(Lm - d - 2)). */
  lemma {:induction false} CSkipIsPowerSum(p: Profile, d: nat)
    requires p.Valid() && d < p.maxDepth
    ensures CSkip(p, d) == 1 + p.maxChildren * PowerSum(p.maxRouters, p.maxDepth - d - 1)
    decreases p.maxDepth - d
  {
    hide CSkip;
    CSkipIsBlockSize(p, d);
    if d + 1 < p.maxDepth {
      CSkipIsBlockSize(p, d + 1);
      CSkipIsPowerSum(p, d + 1);
      var k := p.maxDepth - d - 1;
      PowerSumStep(p.maxRouters, k);
      PowerSumUnfolds(p.maxChildren, p.maxRouters, PowerSum(p.maxRouters, k - 1));
    }
  }

  lemma PowerSumUnfolds(cm: int, rm: int, sum: int)
    ensures 1 + rm * (1 + cm * sum) + (cm - rm) == 1 + cm * (1 + rm * sum)
  {
    MulDistributes(1, cm * sum, rm);
    MulDistributes(1, rm * sum, cm);
    MulAssociates(rm, cm, sum);
    MulAssociates(cm, rm, sum);
  }

  lemma {:induction false} BlockSizesShrink(p: Profile, d: nat, e: nat)
    requires p.Valid() && d <= e <= p.maxDepth
    ensures 1 <= BlockSize(p, e) <= BlockSize(p, d)
    decreases e - d
  {
    if d < e {
      BlockSizesShrink(p, d + 1, e);
      if p.maxRouters >= 1 {
        MulMonotone(1, p.maxRouters, BlockSize(p, d + 1));
      }
    }
  }

  // ----- Cskip in the u32 arithmetic of the source --------------------------------------

  const U32: nat := 0x1_0000_0000

  function CheckedAdd(a: nat, b: nat): Option<nat> { if a + b < U32 then Some(a + b) else None }

  function CheckedSub(a: nat, b: nat): Option<nat> { if b <= a then Some(a - b) else None }

  function CheckedMul(a: nat, b: nat): Option<nat> { if a * b < U32 then Some(a * b) else None }

  function CheckedPow(base: nat, exponent: nat): Option<nat> {
    if Pow(base, exponent) < U32 then Some(Pow(base, exponent)) else None
  }

  /** The source's expression with overflow checks on; `None` is the overflow panic. */
  function CheckedCSkip(p: Profile, d: nat): Option<nat> {
    var span :- CheckedSub(p.maxDepth, d);
    var k :- CheckedSub(span, 1);
    if p.maxRouters == 1 then
      var product :- CheckedMul(p.maxChildren, k);
      CheckedAdd(1, product)
    else
      var a :- CheckedAdd(1, p.maxChildren);
      var b :- CheckedSub(a, p.maxRouters);
      var power :- CheckedPow(p.maxRouters, k);
      var product :- CheckedMul(p.maxChildren, power);
      var dividend :- CheckedSub(b, product);
      var divisor :- CheckedSub(1, p.maxRouters);
      if divisor == 0 then None else Some(dividend / divisor)
  }

  /** The same expression with overflow checks off: the differences are taken modulo 2^32. */
  function WrappingCSkip(p: Profile, d: nat): int
    requires d < p.maxDepth && p.maxRouters < 0x100
  {
    var k := p.maxDepth - d - 1;
    if p.maxRouters == 1 then (1 + p.maxChildren * k) % U32
    else
      ((1 + p.maxChildren - p.maxRouters - p.maxChildren * Pow(p.maxRouters, k)) % U32)
      / ((1 - p.maxRouters) % U32)
  }

  lemma BlockSizeWithoutRouters(p: Profile, d: nat)
    requires p.Valid() && p.maxRouters == 0 && d < p.maxDepth
    ensures var k := p.maxDepth - d - 1;
            0 <= p.maxChildren * Pow(0, k) <= p.maxChildren
            && BlockSize(p, d + 1) == 1 + p.maxChildren - p.maxChildren * Pow(0, k)
  {
  }

  /** With overflow checks the source evaluates Cskip exactly when Rm is 0 or 1 and the depth is
      below Lm; from Rm = 2 on, `1 - rm` alone already underflows. */
  lemma CheckedCSkipIff(p: Profile, d: nat)
    requires FitsNetworkAddress(p)
    ensures CheckedCSkip(p, d).Some? <==> p.maxRouters <= 1 && d < p.maxDepth
    ensures CheckedCSkip(p, d).Some? ==> CheckedCSkip(p, d) == Some(BlockSize(p, d + 1))
  {
    if d >= p.maxDepth {
    } else if p.maxRouters == 0 {
      BlockSizeWithoutRouters(p, d);
    } else if p.maxRouters == 1 {
      BlockSizeOfChain(p, d);
      BlockSizesShrink(p, 0, d + 1);
    } else {
      assert CheckedSub(1, p.maxRouters) == None;
    }
  }

  /** Without overflow checks the source's quotient is the block size for Rm <= 1 and one level
      above Lm; everywhere else it collapses to 0. */
  lemma WrappingCSkipIff(p: Profile, d: nat)
    requires FitsNetworkAddress(p) && d < p.maxDepth
    ensures WrappingCSkip(p, d) == BlockSize(p, d + 1) <==> p.maxRouters <= 1 || d == p.maxDepth - 1
    ensures p.maxRouters >= 2 && d < p.maxDepth - 1 ==> WrappingCSkip(p, d) == 0
  {
    hide WrappingCSkip, BlockSize;
    if p.maxRouters <= 1 {
      WrappingCSkipOfFewRouters(p, d);
    } else {
      BlockAboveLeavesIsLarge(p, d + 1);
      WrappingCSkipOfManyRouters(p, d);
    }
  }

  lemma WrappingCSkipOfFewRouters(p: Profile, d: nat)
    requires FitsNetworkAddress(p) && d < p.maxDepth && p.maxRouters <= 1
    ensures WrappingCSkip(p, d) == BlockSize(p, d + 1)
  {
    hide BlockSize, Pow;
    if p.maxRouters == 0 {
      BlockSizeWithoutRouters(p, d);
      DivideByOne(BlockSize(p, d + 1));
    } else {
      BlockSizeOfChain(p, d);
      BlockSizesShrink(p, 0, d + 1);
    }
  }

  lemma DivideByOne(x: int)
    requires 0 <= x < U32
    ensures (x % U32) / ((1 - 0) % U32) == x
  {
  }

  lemma WrappingCSkipOfManyRouters(p: Profile, d: nat)
    requires FitsNetworkAddress(p) && d < p.maxDepth && p.maxRouters >= 2
    ensures WrappingCSkip(p, d) == if BlockSize(p, d + 1) == 1 then 1 else 0
  {
    BlockSizeTimesRouters(p, d);
    BlockSizesShrink(p, 0, d + 1);
    WrappedQuotient(1 + p.maxChildren - p.maxRouters,
                    p.maxChildren * Pow(p.maxRouters, p.maxDepth - d - 1), p.maxRouters, BlockSize(p, d + 1));
  }

  lemma BlockAboveLeavesIsLarge(p: Profile, d: nat)
    requires p.Valid() && d <= p.maxDepth
    ensures p.maxRouters >= 2 ==> (BlockSize(p, d) == 1 <==> d == p.maxDepth)
    ensures BlockSize(p, d) >= 1
  {
    if d < p.maxDepth {
      BlockSizesShrink(p, d + 1, d + 1);
      MulMonotone(1, BlockSize(p, d + 1), p.maxRouters);
    }
  }

  lemma WrappedQuotient(a: int, b: int, rm: int, size: int)
    requires 2 <= rm < 0x100 && 1 <= size <= 0x1_0000 && (rm - 1) * size == b - a
    ensures ((a - b) % U32) / ((1 - rm) % U32) == if size == 1 then 1 else 0
  {
    MulMonotone(size, 0x1_0000, rm - 1);
    MulMonotone(if size == 1 then 1 else 2, size, rm - 1);
    QuotientOfWrapped(b - a, rm - 1);
  }

  lemma QuotientOfWrapped(x: int, y: int)
    requires 1 <= y <= x < U32 && (x == y || x >= 2 * y)
    ensures (-x % U32) / (-y % U32) == if x == y then 1 else 0
  {
    assert -x % U32 == U32 - x && -y % U32 == U32 - y;
    if x == y {
      DivideExactly(U32 - x, U32 - y, 1);
    } else {
      SmallDividend(U32 - x, U32 - y);
    }
  }

  // ----- the default radius -----------------------------------------------------------------

  /** Twice the maximum depth in the u8 arithmetic of the source; `None` is an overflow. */
  function DefaultRadius(p: Profile): Option<nat> {
    if 2 * p.maxDepth < 0x100 then Some(2 * p.maxDepth) else None
  }

  lemma {:induction false} BlocksDouble(p: Profile, d: nat)
    requires p.Valid() && p.maxRouters >= 2 && d <= p.maxDepth
    ensures BlockSize(p, d) >= Pow(2, p.maxDepth - d)
    decreases p.maxDepth - d
  {
    if d < p.maxDepth {
      BlocksDouble(p, d + 1);
      MulMonotone(2, p.maxRouters, BlockSize(p, d + 1));
    }
  }

  lemma {:induction false} PowerOfTwoGrows(n: nat, m: nat)
    requires n <= m
    ensures Pow(2, n) <= Pow(2, m)
  {
    if n < m { PowerOfTwoGrows(n, m - 1); }
  }

  /** The default radius overflows exactly for chains deeper than 127. */
  lemma DefaultRadiusIff(p: Profile)
    requires FitsNetworkAddress(p)
    ensures DefaultRadius(p).Some? <==> p.maxDepth < 128
    ensures p.maxRouters >= 2 ==> p.maxDepth <= 16
  {
    if p.maxRouters >= 2 && p.maxDepth > 16 {
      BlocksDouble(p, 0);
      PowerOfTwoGrows(17, p.maxDepth);
      PowerOfTwo17();
    }
  }

  lemma PowerOfTwo17()
    ensures Pow(2, 17) == 0x2_0000
  {
    assert Pow(2, 4) == 16;
    assert Pow(2, 8) == 256;
    assert Pow(2, 12) == 4096;
    assert Pow(2, 16) == 65536;
  }

  // ----- the profile of the source that assigns addresses this way ------------------------------

  const ZIGBEE_PROFILE := Profile(20, 6, 5)

  /** Its tree fits 16 bits, and with overflow checks none of its block sizes can be computed. */
  lemma ZigbeeProfileOverflows(d: nat)
    ensures FitsNetworkAddress(ZIGBEE_PROFILE) && BlockSize(ZIGBEE_PROFILE, 0) == 31101
    ensures CheckedCSkip(ZIGBEE_PROFILE, d).None?
  {
    var p := ZIGBEE_PROFILE;
    assert BlockSize(p, 4) == 21;
    assert BlockSize(p, 3) == 141;
    assert BlockSize(p, 2) == 861;
    assert BlockSize(p, 1) == 5181;
    assert BlockSize(p, 0) == 31101;
    CheckedCSkipIff(p, d);
  }
}
