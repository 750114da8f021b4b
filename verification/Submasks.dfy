/** The bit patterns dominated by a mask, and how many there are. */
module Submasks {
  import opened Bits

  /** (cnt & ~mask) == 0 */
  predicate Within(cnt: nat, mask: nat) {
    AndNot(cnt, mask) == 0
  }

  /** How many of the numbers below n are within a mask. */
  function CountBelow(mask: nat, n: nat): nat {
    if n == 0 then 0 else CountBelow(mask, n - 1) + if Within(n - 1, mask) then 1 else 0
  }

  lemma WithinStep(c: nat, a: nat, m: nat, b: nat)
    requires Bit(a) && Bit(b)
    ensures Within(2 * c + a, 2 * m + b) <==> a <= b && Within(c, m)
  {
    hide AndNot;
    OnePlace(c, a, m, b);
  }

  lemma {:induction false} WithinIsBelow(c: nat, m: nat)
    requires Within(c, m)
    ensures c <= m
    decreases c
  {
    hide AndNot, Within;
    if c > 0 {
      WithinStep(c / 2, c % 2, m / 2, m % 2);
      WithinIsBelow(c / 2, m / 2);
    }
  }

  lemma {:induction false} WithinItself(m: nat)
    ensures Within(m, m)
  {
    if m > 0 {
      WithinStep(m / 2, m % 2, m / 2, m % 2);
      WithinItself(m / 2);
    }
  }

  /** One more place doubles the count if the mask has that bit. */
  lemma {:induction false} CountDoubles(m: nat, b: nat, n: nat)
    requires Bit(b)
    ensures CountBelow(2 * m + b, 2 * n) == if b == 1 then 2 * CountBelow(m, n) else CountBelow(m, n)
    decreases n
  {
    hide AndNot, Within;
    if n > 0 {
      CountDoubles(m, b, n - 1);
      WithinStep(n - 1, 0, m, b);
      WithinStep(n - 1, 1, m, b);
      assert CountBelow(2 * m + b, 2 * n)
             == CountBelow(2 * m + b, 2 * n - 1) + if Within(2 * (n - 1) + 1, 2 * m + b) then 1 else 0;
    }
  }

  lemma {:induction false} CountGrows(mask: nat, n: nat, k: nat)
    requires n <= k
    ensures CountBelow(mask, n) <= CountBelow(mask, k)
    ensures mask < n ==> CountBelow(mask, n) == CountBelow(mask, k)
    decreases k
  {
    hide AndNot, Within;
    if n < k {
      CountGrows(mask, n, k - 1);
      if mask < n && Within(k - 1, mask) {
        WithinIsBelow(k - 1, mask);
      }
    }
  }

  lemma {:induction false} CountOfZero(n: nat)
    ensures CountBelow(0, n) == if n == 0 then 0 else 1
  {
    hide AndNot, Within;
    WithinItself(0);
    if n > 1 {
      CountOfZero(n - 1);
      if Within(n - 1, 0) { WithinIsBelow(n - 1, 0); }
    }
  }

  /** A mask dominates two to the number of its bits many patterns. */
  lemma {:induction false} CountSubmasks(mask: nat, n: nat)
    requires mask < n
    ensures CountBelow(mask, n) == Pow2(BitCount(mask))
    decreases mask
  {
    hide AndNot, Within, CountBelow;
    if mask == 0 {
      CountOfZero(n);
    } else {
      var m, b := mask / 2, mask % 2;
      CountSubmasks(m, m + 1);
      CountDoubles(m, b, m + 1);
      CountGrows(mask, mask + 1, n);
      CountGrows(mask, mask + 1, 2 * (m + 1));
      assert BitCount(mask) == b + BitCount(m);
    }
  }
}
