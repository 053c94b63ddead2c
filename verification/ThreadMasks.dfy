/** Sets of logical processors as 64-bit masks: bit i of the number stands for processor i. */
module ThreadMasks {
  import opened Machine

  type mask = u64

  /** Processor `i` belongs to `m`. */
  predicate Has(m: nat, i: nat) {
    if i == 0 then m % 2 == 1 else Has(m / 2, i - 1)
  }

  ghost predicate Subset(a: nat, b: nat) {
    forall i: nat :: Has(a, i) ==> Has(b, i)
  }

  /** Bitwise or. */
  function Or(a: nat, b: nat): nat {
    if a == 0 && b == 0 then 0
    else 2 * Or(a / 2, b / 2) + if a % 2 == 1 || b % 2 == 1 then 1 else 0
  }

  lemma {:induction false} HasOr(a: nat, b: nat, i: nat)
    ensures Has(Or(a, b), i) <==> Has(a, i) || Has(b, i)
    decreases i
  {
    if i > 0 {
      assert Or(a, b) / 2 == Or(a / 2, b / 2);
      HasOr(a / 2, b / 2, i - 1);
    }
  }

  lemma {:induction false} OrBound(a: nat, b: nat, k: nat)
    requires a < Power(k) && b < Power(k)
    ensures Or(a, b) < Power(k)
  {
    if k > 0 { OrBound(a / 2, b / 2, k - 1); }
  }

  lemma Power64()
    ensures Power(64) == TWO64 && Power(16) == 0x1_0000
  {
    assert Power(4) == 16;
    PowerTwice(4, 16);
    PowerTwice(8, 0x100);
    PowerTwice(16, 0x1_0000);
    PowerTwice(32, 0x1_0000_0000);
    hide *;
  }

  lemma PowerTwice(n: nat, p: nat)
    requires Power(n) == p
    ensures Power(2 * n) == p * p
  {
    hide Power;
    PowerSum(n, n);
  }

  lemma {:induction false} PowerSum(m: nat, n: nat)
    ensures Power(m + n) == Power(m) * Power(n)
  {
    if m > 0 { PowerSum(m - 1, n); }
  }

  /** `a | b` on 64 bits. */
  function Union(a: mask, b: mask): mask {
    Power64();
    OrBound(a, b, 64);
    Or(a, b)
  }

  /** `m & ~3ULL`: the two lowest bits cleared. */
  function WithoutCore0(m: mask): mask { m - m % 4 }

  lemma HasWithoutCore0(m: mask, i: nat)
    ensures Has(WithoutCore0(m), i) <==> Has(m, i) && i >= 2
  {
    var w := WithoutCore0(m);
    LowBitsCleared(m);
    if i >= 2 {
      HasTwice(w, i - 2);
      HasTwice(m, i - 2);
    }
  }

  lemma LowBitsCleared(m: nat)
    ensures var w: nat := m - m % 4; w % 2 == 0 && w / 2 % 2 == 0 && w / 4 == m / 4
  {
  }

  lemma HasTwice(m: nat, i: nat)
    ensures Has(m, i + 2) == Has(m / 4, i)
  {
    assert m / 2 / 2 == m / 4;
    assert Has(m, i + 2) == Has(m / 2, i + 1) == Has(m / 2 / 2, i);
  }

  /** `(n >= 64) ? ~0ULL : (1ULL << n) - 1` */
  function FirstThreads(n: nat): mask {
    if n >= 64 then TWO64 - 1 else PowerBelow(n, 64); Power64(); Power(n) - 1
  }

  lemma {:induction false} PowerBelow(m: nat, n: nat)
    requires m <= n
    ensures Power(m) <= Power(n)
  {
    if m < n { PowerBelow(m, n - 1); }
  }

  lemma {:induction false} HasBelowPower(n: nat, i: nat)
    ensures Has(Power(n) - 1, i) <==> i < n
    decreases i
  {
    if n == 0 {
      HasNothing(Power(n) - 1, i);
    } else if i > 0 {
      assert (Power(n) - 1) / 2 == Power(n - 1) - 1;
      HasBelowPower(n - 1, i - 1);
    }
  }

  lemma {:induction false} HasNothing(m: nat, i: nat)
    requires m == 0
    ensures !Has(m, i)
  {
    if i > 0 { HasNothing(m, i - 1); }
  }

  lemma FirstThreadsAre(n: nat, i: nat)
    requires i < 64
    ensures Has(FirstThreads(n), i) <==> i < n
  {
    Power64();
    HasBelowPower(if n >= 64 then 64 else n, i);
  }

  /** The lowest processor of a mask; only the zero mask (see HasNothing) has none. */
  function Lowest(m: nat): (i: nat)
    requires m > 0
    ensures Has(m, i)
  {
    if m % 2 == 1 then 0 else Lowest(m / 2) + 1
  }

  /** All processors of a 64-bit mask are among the first 64. */
  lemma {:induction false} HasBelow(m: nat, k: nat, i: nat)
    requires m < Power(k) && Has(m, i)
    ensures i < k
    decreases k
  {
    if k == 0 {
      HasNothing(m, i);
    } else if i > 0 {
      HasBelow(m / 2, k - 1, i - 1);
    }
  }
}
