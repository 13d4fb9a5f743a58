/** What the operators of a plural expression are worth: laws over all trees and counts
    (intl/dcigettext.c:1007-1087). */
module PluralLaws {
  import opened Arithmetic
  import opened PluralForms
  import opened PluralLexer
  import opened PluralPrinting
  import opened PluralSyntax
  import opened Wrappers

  /** The tree has a value, a word. */
  predicate Worth(e: Expr, n: nat, v: nat) {
    FitsWord(e) && n < ULONG && v < ULONG && Eval(e, n) == Some(v)
  }

  /** Both trees have a value, or none, and the same. */
  predicate Alike(a: Expr, b: Expr, n: nat) {
    FitsWord(a) && FitsWord(b) && n < ULONG && Eval(a, n) == Eval(b, n)
  }

  lemma Applied(op: BinOp, a: Expr, b: Expr, n: nat, x: nat, y: nat, v: nat)
    requires Worth(a, n, x) && Worth(b, n, y) && op != Lor && op != Land && Apply(op, x, y) == Some(v)
    ensures Worth(Bin(op, a, b), n, v)
  {
    hide Apply;
  }

  lemma Negated(a: Expr, n: nat, x: nat)
    requires Worth(a, n, x)
    ensures Worth(Lnot(a), n, Truth(x == 0))
  {
  }

  /** Less than is what it says, and the other comparisons follow from it. */
  lemma Comparisons(a: Expr, b: Expr, n: nat, x: nat, y: nat)
    requires Worth(a, n, x) && Worth(b, n, y)
    ensures Worth(Bin(LessThan, a, b), n, if x < y then 1 else 0)
    ensures Alike(Bin(GreaterThan, a, b), Bin(LessThan, b, a), n)
    ensures Alike(Bin(GreaterOrEqual, a, b), Lnot(Bin(LessThan, a, b)), n)
    ensures Alike(Bin(LessOrEqual, a, b), Lnot(Bin(GreaterThan, a, b)), n)
    ensures Alike(Bin(NotEqual, a, b), Lnot(Bin(Equal, a, b)), n)
    ensures Worth(Bin(Plus, Bin(LessThan, a, b), Bin(Plus, Bin(Equal, a, b), Bin(GreaterThan, a, b))), n, 1)
  {
    hide Eval;
    Applied(LessThan, a, b, n, x, y, Truth(x < y));
    Applied(LessThan, b, a, n, y, x, Truth(y < x));
    Applied(GreaterThan, a, b, n, x, y, Truth(x > y));
    Applied(GreaterOrEqual, a, b, n, x, y, Truth(x >= y));
    Applied(LessOrEqual, a, b, n, x, y, Truth(x <= y));
    Applied(Equal, a, b, n, x, y, Truth(x == y));
    Applied(NotEqual, a, b, n, x, y, Truth(x != y));
    Negated(Bin(LessThan, a, b), n, Truth(x < y));
    Negated(Bin(GreaterThan, a, b), n, Truth(x > y));
    Negated(Bin(Equal, a, b), n, Truth(x == y));
    Applied(Plus, Bin(Equal, a, b), Bin(GreaterThan, a, b), n, Truth(x == y), Truth(x > y), Truth(x >= y));
    Applied(Plus, Bin(LessThan, a, b), Bin(Plus, Bin(Equal, a, b), Bin(GreaterThan, a, b)), n, Truth(x < y),
            Truth(x >= y), 1);
  }

  /** Addition of one is the successor of a word, and after the greatest comes 0; addition of any number follows from
      it. */
  lemma Additions(a: Expr, b: Expr, n: nat, x: nat, y: nat)
    requires Worth(a, n, x) && Worth(b, n, y)
    ensures Worth(Bin(Plus, a, Num(0)), n, x)
    ensures Worth(Bin(Plus, a, Num(1)), n, if x == ULONG - 1 then 0 else x + 1)
    ensures Alike(Bin(Plus, a, Bin(Plus, b, Num(1))), Bin(Plus, Bin(Plus, a, b), Num(1)), n)
  {
    hide Eval, Apply;
    Leaves(n, 0);
    Leaves(n, 1);
    Added(a, Num(0), n, x, 0);
    Added(a, Num(1), n, x, 1);
    Added(b, Num(1), n, y, 1);
    Added(a, b, n, x, y);
    Added(a, Bin(Plus, b, Num(1)), n, x, Add(y, 1));
    Added(Bin(Plus, a, b), Num(1), n, Add(x, y), 1);
  }

  /** Subtraction undoes addition, and the other way round. */
  lemma Subtractions(a: Expr, b: Expr, n: nat, x: nat, y: nat)
    requires Worth(a, n, x) && Worth(b, n, y)
    ensures Worth(Bin(Plus, Bin(Minus, a, b), b), n, x)
    ensures Worth(Bin(Minus, Bin(Plus, a, b), b), n, x)
  {
    hide Eval, Apply;
    Added(a, b, n, x, y);
    Added(Bin(Minus, a, b), b, n, Subtract(x, y), y);
    Added(Bin(Plus, a, b), b, n, Add(x, y), y);
  }

  lemma Added(a: Expr, b: Expr, n: nat, x: nat, y: nat)
    requires Worth(a, n, x) && Worth(b, n, y)
    ensures Worth(Bin(Plus, a, b), n, Add(x, y)) && Worth(Bin(Minus, a, b), n, Subtract(x, y))
  {
    hide Eval, Apply;
    Plainly(x, y);
    Applied(Plus, a, b, n, x, y, Add(x, y));
    Applied(Minus, a, b, n, x, y, Subtract(x, y));
  }

  /** Sum and difference of words. */
  function Add(x: nat, y: nat): (r: nat)
    requires x < ULONG && y < ULONG
    ensures r < ULONG
  {
    if x + y < ULONG then x + y else x + y - ULONG
  }

  function Subtract(x: nat, y: nat): (r: nat)
    requires x < ULONG && y < ULONG
    ensures r < ULONG
  {
    if x >= y then x - y else x + ULONG - y
  }

  lemma Plainly(x: nat, y: nat)
    requires x < ULONG && y < ULONG
    ensures Apply(Plus, x, y) == Some(Add(x, y)) && Apply(Minus, x, y) == Some(Subtract(x, y))
  {
    RemainderIs(x + y, if x + y < ULONG then 0 else 1, Add(x, y), ULONG);
    RemainderIs(x - y, if x >= y then 0 else -1, Subtract(x, y), ULONG);
  }

  /** Multiplication is repeated addition. */
  lemma Multiplications(a: Expr, b: Expr, n: nat, x: nat, y: nat)
    requires Worth(a, n, x) && Worth(b, n, y)
    ensures Worth(Bin(Mult, a, Num(0)), n, 0)
    ensures Alike(Bin(Mult, a, Bin(Plus, b, Num(1))), Bin(Plus, Bin(Mult, a, b), a), n)
  {
    hide Eval;
    Leaves(n, 0);
    Leaves(n, 1);
    Products(x, y);
    Applied(Mult, a, Num(0), n, x, 0, 0);
    Plainly(y, 1);
    hide Apply;
    Applied(Plus, b, Num(1), n, y, 1, Add(y, 1));
    Applied(Mult, a, Bin(Plus, b, Num(1)), n, x, Add(y, 1), Times(x, Add(y, 1)));
    Applied(Mult, a, b, n, x, y, Times(x, y));
    Plainly(Times(x, y), x);
    Applied(Plus, Bin(Mult, a, b), a, n, Times(x, y), x, Add(Times(x, y), x));
  }

  function Times(x: nat, y: nat): (r: nat)
    ensures r < ULONG
  {
    x * y % ULONG
  }

  lemma Products(x: nat, y: nat)
    requires x < ULONG && y < ULONG
    ensures Apply(Mult, x, y) == Some(Times(x, y)) && Apply(Mult, x, Add(y, 1)) == Some(Times(x, Add(y, 1)))
    ensures Times(x, Add(y, 1)) == Add(Times(x, y), x)
  {
    var q, r := x * y / ULONG, x * y % ULONG;
    assert x * y == q * ULONG + r;
    assert x * (y + 1) == x * y + x;
    if r + x < ULONG {
      RemainderIs(x * (y + 1), q, r + x, ULONG);
    } else {
      assert (q + 1) * ULONG == q * ULONG + ULONG;
      RemainderIs(x * (y + 1), q + 1, r + x - ULONG, ULONG);
    }
    if y + 1 == ULONG {
      RemainderIs(x * ULONG, x, 0, ULONG);
    }
  }

  /** Quotient and remainder make up the dividend, and the remainder is below the divisor. */
  lemma Divisions(a: Expr, b: Expr, n: nat, x: nat, y: nat)
    requires Worth(a, n, x) && Worth(b, n, y) && y > 0
    ensures Worth(Bin(Plus, Bin(Mult, Bin(Divide, a, b), b), Bin(Module, a, b)), n, x)
    ensures Worth(Bin(LessThan, Bin(Module, a, b), b), n, 1)
  {
    hide Eval;
    var q, r := x / y, x % y;
    assert x == q * y + r;
    DivideBelow(x, y);
    Applied(Divide, a, b, n, x, y, q);
    Applied(Module, a, b, n, x, y, r);
    RemainderIs(q * y, 0, q * y, ULONG);
    Applied(Mult, Bin(Divide, a, b), b, n, q, y, q * y);
    Plainly(q * y, r);
    hide Apply;
    Applied(Plus, Bin(Mult, Bin(Divide, a, b), b), Bin(Module, a, b), n, q * y, r, x);
    Comparisons(Bin(Module, a, b), b, n, r, y);
  }

  /** The logical operators follow the truth of what they look at, and do not look at more than they need. */
  lemma Logic(a: Expr, b: Expr, c: Expr, n: nat, x: nat)
    requires Worth(a, n, x) && FitsWord(b) && FitsWord(c)
    ensures Worth(Lnot(a), n, if x == 0 then 1 else 0)
    ensures x == 0 ==> Worth(Bin(Land, a, b), n, 0) && Alike(Bin(Lor, a, b), Lnot(Lnot(b)), n)
    ensures x != 0 ==> Worth(Bin(Lor, a, b), n, 1) && Alike(Bin(Land, a, b), Lnot(Lnot(b)), n)
    ensures x == 0 ==> Alike(Qmop(a, b, c), c, n)
    ensures x != 0 ==> Alike(Qmop(a, b, c), b, n)
  {
  }

  /** `n` stands for the count, and a number for itself. */
  lemma Leaves(n: nat, k: nat)
    requires n < ULONG && k < ULONG
    ensures Worth(Var, n, n) && Worth(Num(k), n, k)
  {
  }
}
