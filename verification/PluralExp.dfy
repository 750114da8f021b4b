/** The expression trees of plural-exp.h and their evaluation. */
module PluralExp {
  import opened Arithmetic
  import opened Wrappers

  /** Number of values of `unsigned long int` (64 bits). */
  const ULONG_MOD: nat := 0x1_0000_0000_0000_0000

  /** The operators that take two arguments, in the order of `enum operator`. */
  datatype BinOp =
    | Mult | Divide | Module | Plus | Minus
    | LessThan | GreaterThan | LessOrEqual | GreaterOrEqual
    | Equal | NotEqual | Land | Lor

  /** `struct expression`: one constructor for each shape that nargs and operation allow. */
  datatype Exp =
    | Var
    | Num(num: nat)
    | Lnot(arg: Exp)
    | Bin(op: BinOp, left: Exp, right: Exp)
    | Qmop(cond: Exp, yes: Exp, no: Exp)

  function Truth(b: bool): nat {
    if b then 1 else 0
  }

  /** `unsigned long` arithmetic; None is the SIGFPE of a division by zero. */
  function Apply(op: BinOp, a: nat, b: nat): Option<nat>
  {
    match op
    case Mult => Some(a * b % ULONG_MOD)
    case Divide => if b == 0 then None else Some(a / b)
    case Module => if b == 0 then None else Some(a % b)
    case Plus => Some((a + b) % ULONG_MOD)
    case Minus => Some((a - b) % ULONG_MOD)
    case LessThan => Some(Truth(a < b))
    case GreaterThan => Some(Truth(a > b))
    case LessOrEqual => Some(Truth(a <= b))
    case GreaterOrEqual => Some(Truth(a >= b))
    case Equal => Some(Truth(a == b))
    case NotEqual => Some(Truth(a != b))
    case Land => Some(Truth(a != 0 && b != 0))
    case Lor => Some(Truth(a != 0 || b != 0))
  }

  /** plural_eval: the second argument of || and && and the branch not taken are not evaluated. */
  function PluralEval(e: Exp, n: nat): Option<nat>
  {
    match e
    case Var => Some(n)
    case Num(k) => Some(k)
    case Lnot(a) =>
      (match PluralEval(a, n)
       case None => None
       case Some(v) => Some(Truth(v == 0)))
    case Bin(op, l, r) =>
      (match PluralEval(l, n)
       case None => None
       case Some(a) =>
         if op == Lor && a != 0 then Some(1)
         else if op == Land && a == 0 then Some(0)
         else match PluralEval(r, n)
              case None => None
              case Some(b) => Apply(op, a, b))
    case Qmop(c, y, f) =>
      match PluralEval(c, n)
      case None => None
      case Some(b) => if b != 0 then PluralEval(y, n) else PluralEval(f, n)
  }

  /** Every number in the tree is an `unsigned long`. */
  predicate NumbersFit(e: Exp) {
    match e
    case Var => true
    case Num(k) => k < ULONG_MOD
    case Lnot(a) => NumbersFit(a)
    case Bin(_, l, r) => NumbersFit(l) && NumbersFit(r)
    case Qmop(c, y, f) => NumbersFit(c) && NumbersFit(y) && NumbersFit(f)
  }

  /** The value of a rule is an `unsigned long`, whichever way the arithmetic wraps around. */
  lemma {:induction false} EvalFits(e: Exp, n: nat)
    requires NumbersFit(e) && n < ULONG_MOD && PluralEval(e, n).Some?
    ensures PluralEval(e, n).value < ULONG_MOD
  {
    match e
    case Var =>
    case Num(_) =>
    case Lnot(_) =>
    case Bin(op, l, r) =>
      EvalFits(l, n);
      if PluralEval(r, n).Some? {
        EvalFits(r, n);
        ApplyFits(op, PluralEval(l, n).value, PluralEval(r, n).value);
      }
    case Qmop(c, y, f) =>
      if PluralEval(y, n).Some? { EvalFits(y, n); }
      if PluralEval(f, n).Some? { EvalFits(f, n); }
  }

  lemma ApplyFits(op: BinOp, a: nat, b: nat)
    requires a < ULONG_MOD && b < ULONG_MOD && Apply(op, a, b).Some?
    ensures Apply(op, a, b).value < ULONG_MOD
  {
    if op == Divide && b > 0 {
      QuotientBelow(a, b);
    }
  }

  /** A rule without division always has a value. */
  predicate DividesNothing(e: Exp) {
    match e
    case Var => true
    case Num(_) => true
    case Lnot(a) => DividesNothing(a)
    case Bin(op, l, r) => op != Divide && op != Module && DividesNothing(l) && DividesNothing(r)
    case Qmop(c, y, f) => DividesNothing(c) && DividesNothing(y) && DividesNothing(f)
  }

  lemma {:induction false} EvalTotal(e: Exp, n: nat)
    requires DividesNothing(e)
    ensures PluralEval(e, n).Some?
  {
    match e
    case Var =>
    case Num(_) =>
    case Lnot(a) => EvalTotal(a, n);
    case Bin(op, l, r) =>
      EvalTotal(l, n);
      EvalTotal(r, n);
    case Qmop(c, y, f) =>
      EvalTotal(c, n);
      EvalTotal(y, n);
      EvalTotal(f, n);
  }
}
