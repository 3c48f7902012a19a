/** Letter masks: a set of letters stored as the bits of a natural number.
    The operations `Or`, `And` and `AndNot` are the bitwise `|`, `&` and
    `& ~` of the source on unsigned integers; `Bits` is their meaning as a set
    of bit positions, and `Msb` stands for `31 - __builtin_clz(m)`. */
module Masks {

  /** Size of the alphabet: masks have 26 bits, one per letter 'a'..'z'. */
  const Letters: nat := 26

  /** Number of 26-bit masks, the length of the dense tables (`1u << 26`);
      see TableSizeIsPow2. */
  const TableSize: nat := 0x400_0000

  lemma TableSizeIsPow2()
    ensures TableSize == Pow2(Letters)
  {
    Pow2Add(3, 3);
    Pow2Add(3, 4);
    Pow2Add(6, 7);
    Pow2Add(13, 13);
  }

  lemma {:induction false} Pow2Add(a: nat, b: nat)
    ensures Pow2(a + b) == Pow2(a) * Pow2(b)
    decreases a
  {
    if a > 0 {
      Pow2Add(a - 1, b);
    }
  }

  /** 2 to the power k, i.e. `1u << k`. */
  function Pow2(k: nat): (r: nat)
    ensures r >= 1
  {
    if k == 0 then 1 else 2 * Pow2(k - 1)
  }

  /** Bit k of m is set. */
  predicate Has(m: nat, k: nat)
    decreases k
  {
    if k == 0 then m % 2 == 1 else Has(m / 2, k - 1)
  }

  /** `a | b` */
  function Or(a: nat, b: nat): nat
    decreases a + b
  {
    if a == 0 && b == 0 then 0
    else 2 * Or(a / 2, b / 2) + (if a % 2 == 1 || b % 2 == 1 then 1 else 0)
  }

  /** `a & b` */
  function And(a: nat, b: nat): nat
    decreases a
  {
    if a == 0 || b == 0 then 0
    else 2 * And(a / 2, b / 2) + (if a % 2 == 1 && b % 2 == 1 then 1 else 0)
  }

  /** `a & ~b` */
  function AndNot(a: nat, b: nat): nat
    decreases a
  {
    if a == 0 then 0
    else 2 * AndNot(a / 2, b / 2) + (if a % 2 == 1 && b % 2 == 0 then 1 else 0)
  }

  /** The lowest k bits, `(1u << k) - 1`. */
  function LowMask(k: nat): nat
  {
    Pow2(k) - 1
  }

  /** Position of the highest set bit; -1 for the empty mask. */
  function Msb(m: nat): int
  {
    if m == 0 then -1 else 1 + Msb(m / 2)
  }

  /** The set of bit positions of m. */
  ghost function Bits(m: nat): set<nat>
  {
    set k: nat | k < m && Has(m, k)
  }

  /** Number of set bits. */
  ghost function PopCount(m: nat): nat
  {
    |Bits(m)|
  }

  ghost predicate Disjoint(a: nat, b: nat)
  {
    Bits(a) !! Bits(b)
  }

  ghost predicate Subset(a: nat, b: nat)
  {
    Bits(a) <= Bits(b)
  }

  // ---------------------------------------------------------------------
  // Bit-level facts, by induction on the position.

  lemma {:induction false} HasZero(k: nat)
    ensures !Has(0, k)
  {
    if k > 0 { HasZero(k - 1); }
  }

  lemma {:induction false} HasBelow(m: nat, k: nat)
    requires Has(m, k)
    ensures k < m
  {
    if k > 0 {
      HasBelow(m / 2, k - 1);
    }
  }

  lemma {:induction false} HasOr(a: nat, b: nat, k: nat)
    ensures Has(Or(a, b), k) <==> Has(a, k) || Has(b, k)
  {
    if a == 0 && b == 0 {
      HasZero(k);
    } else if k > 0 {
      HasOr(a / 2, b / 2, k - 1);
    }
  }

  lemma {:induction false} HasAnd(a: nat, b: nat, k: nat)
    ensures Has(And(a, b), k) <==> Has(a, k) && Has(b, k)
  {
    if a == 0 || b == 0 {
      HasZero(k);
    } else if k > 0 {
      HasAnd(a / 2, b / 2, k - 1);
    }
  }

  lemma {:induction false} HasAndNot(a: nat, b: nat, k: nat)
    ensures Has(AndNot(a, b), k) <==> Has(a, k) && !Has(b, k)
  {
    if a == 0 {
      HasZero(k);
    } else if k > 0 {
      HasAndNot(a / 2, b / 2, k - 1);
    }
  }

  lemma {:induction false} HasPow2(k: nat, j: nat)
    ensures Has(Pow2(k), j) <==> j == k
  {
    if k == 0 {
      if j > 0 { HasZero(j - 1); }
    } else if j > 0 {
      HasPow2(k - 1, j - 1);
    }
  }

  /** Two numbers with the same bits are equal. */
  lemma {:induction false} HasExt(a: nat, b: nat)
    requires forall k: nat :: Has(a, k) <==> Has(b, k)
    ensures a == b
    decreases a + b
  {
    if a != 0 || b != 0 {
      assert Has(a, 0) <==> Has(b, 0);
      forall k: nat
        ensures Has(a / 2, k) <==> Has(b / 2, k)
      {
        assert Has(a, k + 1) <==> Has(b, k + 1);
      }
      HasExt(a / 2, b / 2);
    }
  }

  lemma {:induction false} HasMsb(m: nat)
    requires m > 0
    ensures Msb(m) >= 0 && Has(m, Msb(m))
  {
    if m > 1 { HasMsb(m / 2); }
  }

  lemma {:induction false} HasLeMsb(m: nat, k: nat)
    requires Has(m, k)
    ensures k <= Msb(m)
  {
    HasBelow(m, k);
    if k > 0 {
      HasLeMsb(m / 2, k - 1);
    } else if m > 1 {
      HasMsb(m / 2);
    }
  }

  lemma {:induction false} Pow2Monotone(j: nat, k: nat)
    requires j <= k
    ensures Pow2(j) <= Pow2(k)
  {
    if j < k { Pow2Monotone(j, k - 1); }
  }

  /** m lies between 2^Msb(m) and 2^(Msb(m)+1). */
  lemma {:induction false} MsbRange(m: nat)
    requires m > 0
    ensures Msb(m) >= 0 && Pow2(Msb(m)) <= m < Pow2(Msb(m) + 1)
  {
    if m > 1 { MsbRange(m / 2); }
  }

  // ---------------------------------------------------------------------
  // The same facts in terms of the set view.

  lemma BitsHas(m: nat, k: nat)
    ensures k in Bits(m) <==> Has(m, k)
  {
    if Has(m, k) { HasBelow(m, k); }
  }

  lemma BitsOr(a: nat, b: nat)
    ensures Bits(Or(a, b)) == Bits(a) + Bits(b)
  {
    forall k: nat
      ensures k in Bits(Or(a, b)) <==> k in Bits(a) + Bits(b)
    {
      BitsHas(Or(a, b), k); BitsHas(a, k); BitsHas(b, k); HasOr(a, b, k);
    }
  }

  lemma BitsAnd(a: nat, b: nat)
    ensures Bits(And(a, b)) == Bits(a) * Bits(b)
  {
    forall k: nat
      ensures k in Bits(And(a, b)) <==> k in Bits(a) * Bits(b)
    {
      BitsHas(And(a, b), k); BitsHas(a, k); BitsHas(b, k); HasAnd(a, b, k);
    }
  }

  lemma BitsAndNot(a: nat, b: nat)
    ensures Bits(AndNot(a, b)) == Bits(a) - Bits(b)
  {
    forall k: nat
      ensures k in Bits(AndNot(a, b)) <==> k in Bits(a) - Bits(b)
    {
      BitsHas(AndNot(a, b), k); BitsHas(a, k); BitsHas(b, k); HasAndNot(a, b, k);
    }
  }

  lemma BitsPow2(k: nat)
    ensures Bits(Pow2(k)) == {k}
  {
    forall j: nat
      ensures j in Bits(Pow2(k)) <==> j == k
    {
      BitsHas(Pow2(k), j); HasPow2(k, j);
    }
  }

  /** A mask is determined by its set of bits. */
  lemma BitsInjective(a: nat, b: nat)
    requires Bits(a) == Bits(b)
    ensures a == b
  {
    forall k: nat
      ensures Has(a, k) <==> Has(b, k)
    {
      BitsHas(a, k); BitsHas(b, k);
    }
    HasExt(a, b);
  }

  lemma BitsEmpty(m: nat)
    ensures Bits(m) == {} <==> m == 0
  {
    if m > 0 {
      HasMsb(m);
      BitsHas(m, Msb(m));
    }
  }

  /** Msb(m) is the largest element of Bits(m). */
  lemma MsbIsMax(m: nat)
    ensures m == 0 ==> Msb(m) == -1
    ensures m > 0 ==> Msb(m) in Bits(m)
    ensures forall k :: k in Bits(m) ==> k <= Msb(m)
  {
    if m > 0 {
      HasMsb(m);
      BitsHas(m, Msb(m));
    }
    forall k | k in Bits(m)
      ensures k <= Msb(m)
    {
      BitsHas(m, k);
      HasLeMsb(m, k);
    }
  }

  /** A set element that bounds all others is the Msb. */
  lemma MsbUnique(m: nat, k: nat)
    requires k in Bits(m)
    requires forall j :: j in Bits(m) ==> j <= k
    ensures Msb(m) == k
  {
    MsbIsMax(m);
  }

  /** Numeric order follows the leading bit: this is why a mask extended by a
      word with a higher leading letter is a larger number. */
  lemma MsbOrder(a: nat, b: nat)
    requires Msb(a) < Msb(b)
    ensures a < b
  {
    if a > 0 {
      MsbRange(a);
      MsbRange(b);
      Pow2Monotone(Msb(a) + 1, Msb(b));
    }
  }

  lemma MsbMonotone(a: nat, b: nat)
    requires a <= b
    ensures Msb(a) <= Msb(b)
  {
    if Msb(b) < Msb(a) { MsbOrder(b, a); }
  }

  /** A mask fits in k bits iff all of its bits lie below k. */
  lemma BelowPow2(m: nat, k: nat)
    ensures m < Pow2(k) <==> Msb(m) < k
  {
    if m > 0 {
      MsbRange(m);
      if Msb(m) < k {
        Pow2Monotone(Msb(m) + 1, k);
      } else {
        Pow2Monotone(k, Msb(m));
      }
    }
  }

  lemma SubsetMsb(a: nat, b: nat)
    requires Subset(a, b)
    ensures Msb(a) <= Msb(b)
  {
    MsbIsMax(a);
    MsbIsMax(b);
  }

  /** A strict subset of the bits of a mask is a smaller number. */
  lemma {:induction false} SubsetLess(a: nat, b: nat)
    requires Subset(a, b) && a != b
    ensures a < b
    decreases b
  {
    if a == 0 {
      BitsEmpty(b);
    } else {
      var k := Msb(b);
      MsbIsMax(b);
      if k in Bits(a) {
        // both contain the top bit; compare what is left below it
        var a', b' := AndNot(a, Pow2(k)), AndNot(b, Pow2(k));
        BitsAndNot(a, Pow2(k)); BitsAndNot(b, Pow2(k)); BitsPow2(k);
        if a' == b' {
          assert Bits(a) == Bits(a') + {k} == Bits(b);
          BitsInjective(a, b);
        }
        MsbIsMax(a'); MsbIsMax(b');
        assert Msb(b') < k by {
          if b' > 0 { assert Msb(b') in Bits(b) - {k}; }
        }
        assert Msb(b') < Msb(b);
        MsbOrder(b', b);
        SubsetLess(a', b');
        SplitTop(a, k); SplitTop(b, k);
      } else {
        MsbIsMax(a);
        assert Msb(a) < k;
        MsbOrder(a, b);
      }
    }
  }

  /** Removing the top bit k of m subtracts 2^k. */
  lemma {:induction false} SplitTop(m: nat, k: nat)
    requires k in Bits(m)
    ensures AndNot(m, Pow2(k)) + Pow2(k) == m
  {
    BitsHas(m, k);
    HasSplit(m, k);
  }

  lemma {:induction false} HasSplit(m: nat, k: nat)
    requires Has(m, k)
    ensures AndNot(m, Pow2(k)) + Pow2(k) == m
    decreases k
  {
    if k == 0 {
      assert Pow2(0) == 1;
      AndNotOne(m);
    } else {
      HasSplit(m / 2, k - 1);
      assert m > 0 by { HasBelow(m, k); }
      assert Pow2(k) % 2 == 0 && Pow2(k) / 2 == Pow2(k - 1);
    }
  }

  lemma AndNotOne(m: nat)
    requires m % 2 == 1
    ensures AndNot(m, 1) == m - 1
  {
    assert AndNot(m, 1) == 2 * AndNot(m / 2, 0) + 0;
    AndNotZero(m / 2);
  }

  lemma {:induction false} AndNotZero(m: nat)
    ensures AndNot(m, 0) == m
    decreases m
  {
    if m > 0 { AndNotZero(m / 2); }
  }

  /** The lowest k bits, `(1u << k) - 1`. */
  lemma BitsLowMask(k: nat)
    ensures forall j: nat :: j in Bits(LowMask(k)) <==> j < k
  {
    forall j: nat
      ensures j in Bits(LowMask(k)) <==> j < k
    {
      BitsHas(LowMask(k), j);
      HasLowMask(k, j);
    }
  }

  lemma {:induction false} HasLowMask(k: nat, j: nat)
    ensures Has(LowMask(k), j) <==> j < k
  {
    if k == 0 {
      HasZero(j);
    } else {
      assert LowMask(k) % 2 == 1 && LowMask(k) / 2 == LowMask(k - 1);
      if j > 0 { HasLowMask(k - 1, j - 1); }
    }
  }

  /** `(1u << k) - 1` has exactly k bits. */
  lemma {:induction false} PopCountLowMask(k: nat)
    ensures PopCount(LowMask(k)) == k
  {
    if k > 0 {
      PopCountLowMask(k - 1);
      var low := LowMask(k - 1);
      BitsLowMask(k); BitsLowMask(k - 1); BitsPow2(k - 1);
      assert Bits(LowMask(k)) == Bits(low) + {k - 1};
      assert k - 1 !in Bits(low);
    }
  }

  /** `And(a, b) == 0` is the source's test for "no shared letter". */
  lemma AndZeroIffDisjoint(a: nat, b: nat)
    ensures And(a, b) == 0 <==> Disjoint(a, b)
  {
    BitsAnd(a, b);
    BitsEmpty(And(a, b));
    if Disjoint(a, b) {
      assert Bits(a) * Bits(b) == {};
    } else {
      var k :| k in Bits(a) && k in Bits(b);
      assert k in Bits(And(a, b));
    }
  }

  /** Or of two masks that fit in k bits fits in k bits. */
  lemma OrBelow(a: nat, b: nat, k: nat)
    requires a < Pow2(k) && b < Pow2(k)
    ensures Or(a, b) < Pow2(k)
  {
    BelowPow2(a, k); BelowPow2(b, k); BelowPow2(Or(a, b), k);
    BitsOr(a, b);
    MsbIsMax(a); MsbIsMax(b); MsbIsMax(Or(a, b));
  }
}
