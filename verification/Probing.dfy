/** Double hashing modulo a prime: the probe sequence of a hash value visits every slot. */
module Probing {
  import opened Arithmetic

  predicate Prime(p: nat) {
    p > 1 && forall d :: 1 < d < p ==> p % d != 0
  }

  /** The step of the probe sequence. */
  function Incr(p: nat, hash: nat): (r: nat)
    requires p > 2
    ensures 0 < r < p
  {
    1 + hash % (p - 2)
  }

  /** The k-th slot that the probe sequence of a hash value visits, as the probe loops
      compute it from the one before. */
  function Slot(p: nat, hash: nat, k: nat): (s: nat)
    requires p > 2
    ensures s < p
  {
    if k == 0 then hash % p
    else
      var idx, incr := Slot(p, hash, k - 1), Incr(p, hash);
      if idx >= p - incr then idx - (p - incr) else idx + incr
  }

  /** The steps are the numbers from 1 to p - 2: those before p - 2 hash values follow each other, and then they begin
      again. */
  lemma IncrSteps(p: nat, hash: nat)
    requires p > 2
    ensures 1 <= Incr(p, hash) <= p - 2
    ensures Incr(p, 0) == 1 && Incr(p, hash + 1) == if Incr(p, hash) == p - 2 then 1 else Incr(p, hash) + 1
  {
    var m, q, r := p - 2, hash / (p - 2), hash % (p - 2);
    assert hash == m * q + r;
    DivModUnique(0, m, 0, 0);
    if r == m - 1 {
      Distribute(m, q, 1);
      DivModUnique(hash + 1, m, q + 1, 0);
    } else {
      DivModUnique(hash + 1, m, q, r + 1);
    }
  }

  lemma WrapIsMod(a: nat, p: nat, incr: nat)
    requires 0 < incr < p
    ensures (a + incr) % p == if a % p >= p - incr then a % p - (p - incr) else a % p + incr
  {
    var idx := a % p;
    assert a + incr == p * (a / p) + idx + incr;
    if idx >= p - incr {
      assert a + incr == p * (a / p + 1) + (idx - (p - incr));
      DivModUnique(a + incr, p, a / p + 1, idx - (p - incr));
    } else {
      DivModUnique(a + incr, p, a / p, idx + incr);
    }
  }

  /** The wrap-around step is addition modulo the table size. */
  lemma {:induction false} SlotIsSum(p: nat, hash: nat, k: nat)
    requires p > 2
    ensures Slot(p, hash, k) == (hash % p + k * Incr(p, hash)) % p
  {
    var incr := Incr(p, hash);
    if k == 0 {
      assert 0 * incr == 0;
      DivModUnique(hash % p, p, 0, hash % p);
    } else {
      SlotIsSum(p, hash, k - 1);
      WrapIsMod(hash % p + (k - 1) * incr, p, incr);
      assert (k - 1) * incr + incr == k * incr;
    }
  }

  /** A prime divides no product of two smaller positive numbers. */
  lemma {:induction false} NoZeroDivisor(p: nat, a: nat, k: nat)
    requires Prime(p) && 0 < a < p && 0 < k < p
    ensures a * k % p != 0
    decreases k
  {
    if a * k % p == 0 {
      var m := a * k / p;
      assert a * k == p * m;
      if k == 1 {
        assert a == p * m;
        if m >= 1 { MulAtLeast(p, m); }
      } else {
        var q, r := p / k, p % k;
        assert r != 0 && p == k * q + r;
        NoZeroDivisor(p, a, r);
        assert a * r == p * (a - m * q) by {
          assert a * r == a * p - a * k * q;
          assert a * k * q == p * m * q;
        }
        DivModUnique(a * r, p, a - m * q, 0);
      }
    }
  }

  lemma CongruentDifference(a: nat, b: nat, p: nat)
    requires p > 0 && a % p == b % p
    ensures b - a == p * (b / p - a / p)
  {
  }

  lemma SumsDiffer(p: nat, h: nat, incr: nat, j: nat, k: nat)
    requires Prime(p) && 0 < incr < p && j < k < p
    ensures (h + j * incr) % p != (h + k * incr) % p
  {
    hide Prime;
    var a, b, d := h + j * incr, h + k * incr, k - j;
    if a % p == b % p {
      CongruentDifference(a, b, p);
      assert b - a == incr * d;
      DivModUnique(incr * d, p, b / p - a / p, 0);
      NoZeroDivisor(p, incr, d);
    }
  }

  /** Fewer than p steps never lead back to a slot. */
  lemma SlotsDiffer(p: nat, hash: nat, j: nat, k: nat)
    requires Prime(p) && p > 2 && j < k < p
    ensures Slot(p, hash, j) != Slot(p, hash, k)
  {
    hide Prime, Slot;
    SlotIsSum(p, hash, j);
    SlotIsSum(p, hash, k);
    SumsDiffer(p, hash % p, Incr(p, hash), j, k);
  }

  /** The slots visited in the first n steps. */
  ghost function Visited(p: nat, hash: nat, n: nat): set<nat>
    requires p > 2
  {
    set k: nat | k < n :: Slot(p, hash, k)
  }

  lemma {:induction false} VisitedCount(p: nat, hash: nat, n: nat)
    requires Prime(p) && p > 2 && n <= p
    ensures |Visited(p, hash, n)| == n
  {
    if n > 0 {
      VisitedCount(p, hash, n - 1);
      var s := Slot(p, hash, n - 1);
      assert s !in Visited(p, hash, n - 1) by {
        forall k: nat | k < n - 1 ensures Slot(p, hash, k) != s {
          SlotsDiffer(p, hash, k, n - 1);
        }
      }
      assert Visited(p, hash, n) == Visited(p, hash, n - 1) + {s};
    }
  }

  lemma {:induction false} BoundedCount(s: set<nat>, p: nat)
    requires forall x <- s :: x < p
    ensures |s| <= p
    ensures |s| == p ==> forall x: nat :: x < p ==> x in s
  {
    if p == 0 {
      assert s == {};
    } else {
      BoundedCount(s - {p - 1}, p - 1);
    }
  }

  /** The probe sequence visits every slot within p steps. */
  lemma VisitsAll(p: nat, hash: nat, slot: nat) returns (k: nat)
    requires Prime(p) && p > 2 && slot < p
    ensures k < p && Slot(p, hash, k) == slot
  {
    VisitedCount(p, hash, p);
    BoundedCount(Visited(p, hash, p), p);
    assert slot in Visited(p, hash, p);
    k :| k < p && Slot(p, hash, k) == slot;
  }
}
