/** The mask form of `alignUp` on 64-bit words, and what it computes. */
module Bits {
  import opened Bytes
  import opened Modular

  function Pow2(k: nat): (p: nat)
    ensures p >= 1
  {
    if k == 0 then 1 else 2 * Pow2(k - 1)
  }

  /** Bitwise conjunction. */
  function And(x: nat, y: nat): nat
    decreases x
  {
    if x == 0 || y == 0 then 0
    else 2 * And(x / 2, y / 2) + (if x % 2 == 1 && y % 2 == 1 then 1 else 0)
  }

  /** `alignUp(p, a)` as written: add `a - 1` in 64 bits, then clear the low bits with the complement of `a - 1`. */
  function AlignUpMask(p: nat, a: nat): nat
    requires 1 <= a <= U64_LIMIT
  {
    And((p + (a - 1)) % U64_LIMIT, U64_LIMIT - a)
  }

  /** Rounding up to a multiple. */
  function AlignUp(p: nat, a: nat): nat
    requires a >= 1
  {
    (p + (a - 1)) / a * a
  }

  lemma {:induction false} AndAllOnes(y: nat, w: nat)
    requires y < Pow2(w)
    ensures And(y, Pow2(w) - 1) == y
  {
    if y != 0 {
      AndAllOnes(y / 2, w - 1);
      assert (Pow2(w) - 1) / 2 == Pow2(w - 1) - 1 && (Pow2(w) - 1) % 2 == 1;
    }
  }

  /** Halving a number halves its remainder by a power of two. */
  lemma HalfRemainder(y: nat, k: nat)
    requires k > 0
    ensures y % Pow2(k) == 2 * (y / 2 % Pow2(k - 1)) + y % 2
  {
    var p := Pow2(k - 1);
    var q, r := y / 2 / p, y / 2 % p;
    assert y == 2 * (y / 2) + y % 2;
    assert y / 2 == q * p + r;
    assert y == q * Pow2(k) + (2 * r + y % 2) by {
      assert q * Pow2(k) == 2 * (q * p);
    }
    Unique(y, Pow2(k), q, 2 * r + y % 2);
  }

  lemma AndEven(y: nat, m: nat)
    ensures And(y, 2 * m) == 2 * And(y / 2, m)
  {
    if y / 2 == 0 || m == 0 {
      assert And(y / 2, m) == 0;
    }
  }

  lemma {:induction false} Pow2Monotone(j: nat, k: nat)
    requires j <= k
    ensures Pow2(j) <= Pow2(k)
  {
    if j < k {
      Pow2Monotone(j, k - 1);
    }
  }

  lemma PowerZero()
    ensures Pow2(0) == 1
  {
  }

  lemma PowerStep(k: nat)
    requires k > 0
    ensures Pow2(k) == 2 * Pow2(k - 1)
  {
  }

  lemma Reassemble(y: nat, low: nat, full: nat)
    requires full == 2 * low + y % 2
    ensures 2 * (y / 2 - low) == y - full
  {
  }

  lemma MinusSelf(y: nat)
    ensures y - y % 1 == y
  {
  }

  /** Masking with the complement of the low `k` bits subtracts the remainder. */
  lemma {:induction false} ClearLowBits(y: nat, w: nat, k: nat)
    requires k <= w && y < Pow2(w)
    ensures Pow2(k) <= Pow2(w)
    ensures And(y, Pow2(w) - Pow2(k)) == y - y % Pow2(k)
    decreases w
  {
    hide And, Pow2;
    Pow2Monotone(k, w);
    if k == 0 {
      AndAllOnes(y, w);
      MinusSelf(y);
      PowerZero();
    } else {
      PowerStep(w);
      PowerStep(k);
      var half := y / 2;
      ClearLowBits(half, w - 1, k - 1);
      HalfRemainder(y, k);
      var mask := Pow2(w - 1) - Pow2(k - 1);
      assert Pow2(w) - Pow2(k) == 2 * mask;
      AndEven(y, mask);
      Reassemble(y, half % Pow2(k - 1), y % Pow2(k));
    }
  }

  lemma {:induction false} Pow2Add(a: nat, b: nat)
    ensures Pow2(a + b) == Pow2(a) * Pow2(b)
  {
    if a > 0 {
      Pow2Add(a - 1, b);
    }
  }

  lemma Pow2Four()
    ensures Pow2(4) == 16
  {
    assert Pow2(2) == 4;
  }

  lemma WordSize()
    ensures Pow2(64) == U64_LIMIT
  {
    hide Pow2;
    Pow2Four();
    Pow2Add(4, 4);
    assert Pow2(8) == 0x100;
    Pow2Add(8, 8);
    assert Pow2(16) == 0x1_0000;
    Pow2Add(16, 16);
    assert Pow2(32) == 0x1_0000_0000;
    Pow2Add(32, 32);
  }

  lemma RoundDown(y: nat, a: nat)
    requires a >= 1
    ensures y - y % a == y / a * a
  {
  }

  lemma PowerInWord(k: nat)
    requires k <= 64
    ensures Pow2(k) <= U64_LIMIT
  {
    hide Pow2;
    WordSize();
    Pow2Monotone(k, 64);
  }

  lemma MaskClears(p: nat, k: nat)
    requires k <= 64
    ensures 1 <= Pow2(k) <= U64_LIMIT
    ensures var y := (p + (Pow2(k) - 1)) % U64_LIMIT; AlignUpMask(p, Pow2(k)) == y - y % Pow2(k)
  {
    hide Pow2, And;
    WordSize();
    PowerInWord(k);
    ClearLowBits((p + (Pow2(k) - 1)) % U64_LIMIT, 64, k);
  }

  /** For a power of two the mask form is arithmetic rounding up, exactly as long as the sum fits the word;
      otherwise it yields zero. */
  lemma MaskIsAlignUp(p: nat, k: nat)
    requires p < U64_LIMIT && k <= 63
    ensures 1 <= Pow2(k) <= U64_LIMIT
    ensures p + Pow2(k) - 1 < U64_LIMIT ==> AlignUpMask(p, Pow2(k)) == AlignUp(p, Pow2(k))
    ensures p + Pow2(k) - 1 >= U64_LIMIT ==> AlignUpMask(p, Pow2(k)) == 0
  {
    hide Pow2, AlignUpMask, And;
    MaskClears(p, k);
    var a := Pow2(k);
    var sum := p + (a - 1);
    if sum < U64_LIMIT {
      Unique(sum, U64_LIMIT, 0, sum);
      RoundDown(sum, a);
    } else {
      var y := sum - U64_LIMIT;
      Unique(sum, U64_LIMIT, 1, y);
      Unique(y, a, 0, y);
    }
  }

  /** The least multiple not below. */
  lemma AlignUpBounds(p: nat, a: nat)
    requires a >= 1
    ensures p <= AlignUp(p, a) < p + a
    ensures AlignUp(p, a) % a == 0
  {
    var q, r := (p + (a - 1)) / a, (p + (a - 1)) % a;
    assert p + (a - 1) == q * a + r;
    Unique(q * a, a, q, 0);
  }

  lemma AlignUpLeast(p: nat, a: nat, m: nat)
    requires a >= 1 && p <= m && m % a == 0
    ensures AlignUp(p, a) <= m
  {
    AlignUpBounds(p, a);
    LeastMultiple(p, a, (p + (a - 1)) / a, m);
  }

  lemma LeastMultiple(p: nat, a: nat, i: nat, m: nat)
    requires a >= 1 && p <= m && m % a == 0 && i * a < p + a
    ensures i * a <= m
  {
    var j := m / a;
    if j < i {
      Gap(j, i, a);
    } else if i < j {
      Gap(i, j, a);
    }
  }

  lemma AlignUpMonotone(p: nat, q: nat, a: nat)
    requires a >= 1 && p <= q
    ensures AlignUp(p, a) <= AlignUp(q, a)
  {
    AlignUpBounds(q, a);
    AlignUpLeast(p, a, AlignUp(q, a));
  }

  /** A coarser grid contains the finer one. */
  lemma CoarserMultiple(m: nat, k: nat, j: nat)
    requires j <= k && m % Pow2(k) == 0
    ensures m % Pow2(j) == 0
  {
    var q := m / Pow2(k);
    assert m == q * Pow2(k);
    Pow2Add(k - j, j);
    var f := Pow2(k - j);
    assert m == (q * f) * Pow2(j) by { MulAssoc(q, f, Pow2(j)); }
    Unique(m, Pow2(j), q * f, 0);
  }

  lemma MulAssoc(a: nat, b: nat, c: nat)
    ensures a * (b * c) == (a * b) * c
  {
  }

  /** Aligning to the finer grid first does not change the coarser alignment. */
  lemma AlignUpTwice(p: nat, k: nat, j: nat)
    requires j <= k
    ensures AlignUp(AlignUp(p, Pow2(j)), Pow2(k)) == AlignUp(p, Pow2(k))
    ensures AlignUp(p, Pow2(j)) <= AlignUp(p, Pow2(k))
  {
    var fine, coarse := AlignUp(p, Pow2(j)), AlignUp(p, Pow2(k));
    AlignUpBounds(p, Pow2(j));
    AlignUpBounds(p, Pow2(k));
    CoarserMultiple(coarse, k, j);
    AlignUpLeast(p, Pow2(j), coarse);
    AlignUpMonotone(p, fine, Pow2(k));
    AlignUpLeast(fine, Pow2(k), coarse);
  }
}
