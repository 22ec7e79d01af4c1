/** Remainders by a fixed positive number: the few facts ring indices and alignment need. */
module Modular {
  lemma {:induction false} AddMultiple(a: nat, k: nat, c: nat)
    requires c > 0
    ensures (a + k * c) % c == a % c && (a + k * c) / c == a / c + k
  {
    if k > 0 {
      AddMultiple(a, k - 1, c);
      var b := a + (k - 1) * c;
      assert a + k * c == b + c;
      StepUp(b, c);
    }
  }

  lemma StepUp(b: nat, c: nat)
    requires c > 0
    ensures (b + c) % c == b % c && (b + c) / c == b / c + 1
  {
    var q, r := b / c, b % c;
    assert b + c == (q + 1) * c + r;
    Unique(b + c, c, q + 1, r);
  }

  lemma Gap(p: nat, q: nat, c: nat)
    requires p < q
    ensures q * c >= p * c + c
  {
    assert q * c == p * c + (q - p) * c;
    assert (q - p) * c == c + (q - p - 1) * c;
  }

  /** Quotient and remainder are determined. */
  lemma Unique(n: nat, c: nat, q: nat, r: nat)
    requires c > 0 && n == q * c + r && r < c
    ensures n / c == q && n % c == r
  {
    var p, s := n / c, n % c;
    if p < q {
      Gap(p, q, c);
    } else if q < p {
      Gap(q, p, c);
    }
  }

  /** Stepping an index round the ring is the index of the next ticket. */
  lemma NextIndex(t: nat, c: nat)
    requires c > 0
    ensures (t % c + 1) % c == (t + 1) % c
  {
    var q, r := t / c, t % c;
    if r + 1 < c {
      Unique(t + 1, c, q, r + 1);
      Unique(r + 1, c, 0, r + 1);
    } else {
      assert t + 1 == (q + 1) * c;
      Unique(t + 1, c, q + 1, 0);
      Unique(c, c, 1, 0);
    }
  }

  /** Tickets less than a lap apart have different indices. */
  lemma SameIndex(a: nat, b: nat, c: nat)
    requires c > 0 && a <= b < a + c && a % c == b % c
    ensures a == b
  {
    var qa, qb := a / c, b / c;
    if qa < qb {
      Gap(qa, qb, c);
    } else if qb < qa {
      Gap(qb, qa, c);
    }
  }

  /** One step round the ring, without a remainder. */
  lemma Wrap(x: nat, c: nat)
    requires x < c
    ensures (x + 1) % c == if x + 1 == c then 0 else x + 1
  {
    if x + 1 == c {
      Unique(c, c, 1, 0);
    } else {
      Unique(x + 1, c, 0, x + 1);
    }
  }
}
