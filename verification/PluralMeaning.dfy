/** What plural expressions mean, in the arithmetic of the integers. */
module PluralMeaning {
  import opened Arithmetic
  import opened PluralExp
  import opened Wrappers

  /** Two integers are the same `unsigned long`. */
  ghost predicate Congruent(a: int, b: int) {
    exists k: int :: a == b + k * ULONG_MOD
  }

  /** A truth value is 1 or 0. */
  predicate Says(r: Option<nat>, b: bool) {
    if b then r == Some(1) else r == Some(0)
  }

  predicate DivRest(a: nat, b: nat, q: nat, rest: nat) {
    rest < b && a == q * b + rest
  }

  /** What an operator makes of two values that it needs both: r is None if there is no such value. */
  ghost predicate Yields(op: BinOp, a: nat, b: nat, r: Option<nat>) {
    match op
    case Mult => r.Some? && r.value < ULONG_MOD && Congruent(r.value, a * b)
    case Plus => r.Some? && r.value < ULONG_MOD && Congruent(r.value, a + b)
    case Minus => r.Some? && r.value < ULONG_MOD && Congruent(r.value, a - b)
    case Divide => if r.None? then b == 0 else exists rest: nat :: DivRest(a, b, r.value, rest)
    case Module => if r.None? then b == 0 else exists times: nat :: DivRest(a, b, times, r.value)
    case LessThan => Says(r, b - a > 0)
    case GreaterThan => Says(r, a - b > 0)
    case LessOrEqual => Says(r, !(a - b > 0))
    case GreaterOrEqual => Says(r, !(b - a > 0))
    case Equal => Says(r, a - b == 0)
    case NotEqual => Says(r, a - b != 0)
    case Land => Says(r, !(a == 0 || b == 0))
    case Lor => Says(r, !(a == 0 && b == 0))
  }

  /** r is what the expression comes to for n, and None says that it divides by zero on the way. The value of the first
      operand decides alone where it can. */
  ghost predicate Means(e: Exp, n: nat, r: Option<nat>)
    decreases e, 0
  {
    match e
    case Var => r == Some(n)
    case Num(k) => r == Some(k)
    case Lnot(a) => if r.None? then Means(a, n, None) else exists v :: Means(a, n, Some(v)) && Says(r, v == 0)
    case Bin(op, left, right) =>
      || (Means(left, n, None) && r.None?)
      || exists a :: Means(left, n, Some(a)) && BinMeans(op, a, right, n, r)
    case Qmop(cond, yes, no) =>
      || (Means(cond, n, None) && r.None?)
      || (Means(cond, n, Some(0)) && Means(no, n, r))
      || (Means(yes, n, r) && exists c :: Means(cond, n, Some(c)) && c > 0)
  }

  ghost predicate BinMeans(op: BinOp, a: nat, right: Exp, n: nat, r: Option<nat>)
    decreases right, 1
  {
    if (op == Lor && a > 0) || (op == Land && a == 0) then Says(r, op == Lor)
    else (Means(right, n, None) && r.None?) || exists b :: Means(right, n, Some(b)) && Yields(op, a, b, r)
  }

  // ---- Each operator ----

  lemma CongruentOnce(x: nat, y: nat, a: int)
    requires x < ULONG_MOD && y < ULONG_MOD && Congruent(x, a) && Congruent(y, a)
    ensures x == y
  {
    var j :| x == a + j * ULONG_MOD;
    var k :| y == a + k * ULONG_MOD;
    Congruence(x, a, j);
    Congruence(y, a, k);
  }

  lemma Congruence(x: nat, a: int, k: int)
    requires x < ULONG_MOD && x == a + k * ULONG_MOD
    ensures a % ULONG_MOD == x
  {
    assert a == ULONG_MOD * -k + x;
    DivModUnique(a, ULONG_MOD, -k, x);
  }

  lemma CongruentMod(a: int)
    ensures Congruent(a % ULONG_MOD, a)
  {
    var q := a / ULONG_MOD;
    assert a == ULONG_MOD * q + a % ULONG_MOD;
    assert a % ULONG_MOD == a + -q * ULONG_MOD;
  }

  /** Quotient and remainder are determined by dividing with rest. */
  lemma DividesWithRest(a: nat, b: nat, q: nat, rest: nat)
    requires DivRest(a, b, q, rest)
    ensures b > 0 && a / b == q && a % b == rest
  {
    assert q * b == b * q;
    DivModUnique(a, b, q, rest);
  }

  lemma HasRest(a: nat, b: nat)
    requires b > 0
    ensures DivRest(a, b, a / b, a % b)
  {
  }

  lemma Divides(a: nat, b: nat, r: Option<nat>)
    ensures (if r.None? then b == 0 else exists rest: nat :: DivRest(a, b, r.value, rest))
            <==> r == if b == 0 then None else Some(a / b)
  {
    if b > 0 { HasRest(a, b); }
    hide DivRest;
    if r.Some? && exists rest: nat :: DivRest(a, b, r.value, rest) {
      var rest: nat :| DivRest(a, b, r.value, rest);
      DividesWithRest(a, b, r.value, rest);
    }
  }

  lemma Leaves(a: nat, b: nat, r: Option<nat>)
    ensures (if r.None? then b == 0 else exists times: nat :: DivRest(a, b, times, r.value))
            <==> r == if b == 0 then None else Some(a % b)
  {
    if b > 0 { HasRest(a, b); }
    hide DivRest;
    if r.Some? && exists times: nat :: DivRest(a, b, times, r.value) {
      var times: nat :| DivRest(a, b, times, r.value);
      DividesWithRest(a, b, times, r.value);
    }
  }

  /** For every operator and all operands, evaluation gives the one result that the integers allow. */
  lemma ApplyMeans(op: BinOp, a: nat, b: nat, r: Option<nat>)
    ensures Yields(op, a, b, r) <==> r == Apply(op, a, b)
  {
    match op
    case Mult => OnlyCongruent(a * b, r);
    case Plus => OnlyCongruent(a + b, r);
    case Minus => OnlyCongruent(a - b, r);
    case Divide => Divides(a, b, r);
    case Module => Leaves(a, b, r);
    case _ =>
  }

  lemma OnlyCongruent(a: int, r: Option<nat>)
    ensures r.Some? && r.value < ULONG_MOD && Congruent(r.value, a) <==> r == Some(a % ULONG_MOD)
  {
    CongruentMod(a);
    if r.Some? && r.value < ULONG_MOD && Congruent(r.value, a) {
      CongruentOnce(r.value, a % ULONG_MOD, a);
    }
  }

  // ---- Whole expressions ----

  /** Every expression means exactly what its evaluation gives. */
  lemma {:induction false} EvalMeans(e: Exp, n: nat, r: Option<nat>)
    ensures Means(e, n, r) <==> r == PluralEval(e, n)
    decreases e, 0
  {
    hide Yields, Apply;
    match e
    case Var =>
    case Num(_) =>
    case Lnot(a) => AllMeant(a, n);
    case Bin(op, left, right) =>
      AllMeant(left, n);
      if PluralEval(left, n).Some? {
        RightMeant(op, PluralEval(left, n).value, right, n, r);
      }
    case Qmop(cond, yes, no) =>
      AllMeant(cond, n);
      AllMeant(yes, n);
      AllMeant(no, n);
  }

  lemma {:induction false} RightMeant(op: BinOp, a: nat, right: Exp, n: nat, r: Option<nat>)
    ensures BinMeans(op, a, right, n, r)
            <==> r == if op == Lor && a != 0 then Some(1) else if op == Land && a == 0 then Some(0)
                      else if PluralEval(right, n).None? then None else Apply(op, a, PluralEval(right, n).value)
    decreases right, 2
  {
    hide Yields, Apply, Means, PluralEval;
    AllMeant(right, n);
    match PluralEval(right, n)
    case None =>
    case Some(v) =>
      ApplyMeans(op, a, v, r);
      OnlyOne(op, a, right, n, v, r);
  }

  lemma OnlyOne(op: BinOp, a: nat, right: Exp, n: nat, v: nat, r: Option<nat>)
    requires forall r :: Means(right, n, r) <==> r == Some(v)
    ensures (exists b :: Means(right, n, Some(b)) && Yields(op, a, b, r)) <==> Yields(op, a, v, r)
    ensures !Means(right, n, None)
  {
    hide Yields, Means;
    assert Means(right, n, Some(v));
  }

  lemma {:induction false} AllMeant(e: Exp, n: nat)
    ensures forall r :: Means(e, n, r) <==> r == PluralEval(e, n)
    decreases e, 1
  {
    forall r ensures Means(e, n, r) <==> r == PluralEval(e, n) { EvalMeans(e, n, r); }
  }
}
