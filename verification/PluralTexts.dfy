/** Plural expressions as they stand in a header: from literal text to the form it selects (intl/plural.c:1175-1317,
    intl/loadmsgcat.c:485-541, po/cs.po:16-17). */
module PluralTexts {
  import opened Arithmetic
  import opened PluralDriver
  import opened PluralForms
  import opened PluralGrammar
  import opened PluralHeader
  import opened PluralLaws
  import opened PluralLexer
  import opened PluralParser
  import opened PluralPrinting
  import opened PluralSyntax
  import opened Wrappers

  predicate BeginsText(c: char) {
    IsDigit(c) || c == 'n' || c == '!' || c == '('
  }

  /** The text is scanned as the tokens of `c`, whatever comes behind that is no digit. */
  ghost predicate Spells(x: string, c: Cst) {
    && x != [] && BeginsText(x[0])
    && forall y: string :: !IsDigit(First(y)) ==> LexAll(x + y) == Yield(c, LexAll(y))
  }

  lemma TokenInFront(gap: string, t: Token, y: string)
    requires Blanks(gap) && Proper(t) && !Extends(t, First(y))
    ensures LexAll(gap + (Spell(t) + y)) == [t] + LexAll(y)
  {
    hide LexHere, Spell;
    TokenSpelled(t, y);
    ProperStarts(t);
    BlanksIgnored(gap, Spell(t) + y);
  }

  lemma GapInFront(gap: string, x: string)
    requires Blanks(gap) && x != [] && BeginsText(x[0])
    ensures LexAll(gap + x) == LexAll(x)
  {
    BlanksIgnored(gap, x);
    BlanksIgnored("", x);
    assert "" + x == x;
    hide LexHere;
  }

  lemma SpellsVar()
    ensures Spells("n", CVar)
  {
    forall y: string | !IsDigit(First(y))
      ensures LexAll("n" + y) == Yield(CVar, LexAll(y))
    {
      TokenInFront("", VarN, y);
      assert "" + (Spell(VarN) + y) == "n" + y;
    }
  }

  lemma SpellsNum(k: nat)
    requires k < ULONG
    ensures Spells(Decimal(k), CNum(k))
  {
    hide LexAll, Decimal;
    forall y: string | !IsDigit(First(y))
      ensures LexAll(Decimal(k) + y) == Yield(CNum(k), LexAll(y))
    {
      TokenInFront("", Number(k), y);
      assert "" + (Spell(Number(k)) + y) == Decimal(k) + y;
    }
  }

  lemma SpellsNot(x: string, c: Cst)
    requires Spells(x, c)
    ensures Spells("!" + x, CNot(c))
  {
    hide LexAll;
    forall y: string | !IsDigit(First(y))
      ensures LexAll("!" + x + y) == Yield(CNot(c), LexAll(y))
    {
      TokenInFront("", Bang, x + y);
      assert "" + (Spell(Bang) + (x + y)) == "!" + x + y;
      assert First(x + y) == x[0];
    }
  }

  lemma SpellsParen(x: string, c: Cst)
    requires Spells(x, c)
    ensures Spells("(" + x + ")", CParen(c))
  {
    hide LexAll;
    forall y: string | !IsDigit(First(y))
      ensures LexAll("(" + x + ")" + y) == Yield(CParen(c), LexAll(y))
    {
      TokenInFront("", RParen, y);
      TokenInFront("", LParen, x + (")" + y));
      assert "" + (Spell(RParen) + y) == ")" + y;
      assert "" + (Spell(LParen) + (x + (")" + y))) == "(" + x + ")" + y;
    }
  }

  lemma Regroup(x: string, a: string, b: string, c: string, z: string, y: string)
    ensures x + (a + b + c) + z + y == x + (a + (b + (c + (z + y))))
  {
  }

  lemma NotDigitAhead(gap: string, op: Token, y: string)
    requires Blanks(gap) && Proper(op) && !op.Number?
    ensures !IsDigit(First(gap + (Spell(op) + y)))
  {
  }

  /** What stands between two expressions, with blanks around it. */
  lemma SpellsBetween(gap: string, op: Token, gap2: string, z: string, y: string)
    requires Blanks(gap) && Blanks(gap2) && Proper(op) && !op.Number? && op != Bang
    requires z != [] && BeginsText(z[0])
    ensures LexAll(gap + (Spell(op) + (gap2 + (z + y)))) == [op] + LexAll(z + y)
  {
    hide LexAll;
    assert (z + y)[0] == z[0];
    assert First(gap2 + (z + y)) == (if gap2 == [] then z[0] else gap2[0]);
    TokenInFront(gap, op, gap2 + (z + y));
    GapInFront(gap2, z + y);
  }

  lemma SpellsInfix(x: string, l: Cst, sep: string, gap: string, op: Token, gap2: string, z: string, r: Cst)
    requires Spells(x, l) && Spells(z, r) && IsBinary(op) && Proper(op) && Blanks(gap) && Blanks(gap2)
    requires sep == gap + Spell(op) + gap2
    ensures Spells(x + sep + z, CInfix(op, l, r))
  {
    hide LexAll, Spell;
    forall y: string | !IsDigit(First(y))
      ensures LexAll(x + sep + z + y) == Yield(CInfix(op, l, r), LexAll(y))
    {
      Regroup(x, gap, Spell(op), gap2, z, y);
      SpellsBetween(gap, op, gap2, z, y);
      NotDigitAhead(gap, op, gap2 + (z + y));
    }
  }

  lemma SpellsCond(x: string, b: Cst, z: string, t: Cst, w: string, f: Cst)
    requires Spells(x, b) && Spells(z, t) && Spells(w, f)
    ensures Spells(x + " ? " + z + " : " + w, CCond(b, t, f))
  {
    hide LexAll;
    forall y: string | !IsDigit(First(y))
      ensures LexAll(x + " ? " + z + " : " + w + y) == Yield(CCond(b, t, f), LexAll(y))
    {
      var rest := " " + (Spell(Colon) + (" " + (w + y)));
      assert " " + Spell(Question) + " " == " ? " && " " + Spell(Colon) + " " == " : ";
      hide Spell;
      SpellsBetween(" ", Colon, " ", w, y);
      NotDigitAhead(" ", Colon, " " + (w + y));
      SpellsBetween(" ", Question, " ", z, rest);
      NotDigitAhead(" ", Question, " " + (z + rest));
      Regroup(x, " ", Spell(Question), " ", z, rest);
      Regroup(x + " ? " + z, " ", Spell(Colon), " ", w, y);
    }
  }

  /** A text that obeys precedence is parsed to the tree it means. */
  lemma TextParsed(x: string, c: Cst, tail: string)
    requires Spells(x, c) && Obeys(c) && 1 + Need(c) < YYMAXDEPTH && Terminator(tail)
    ensures Parse(LexAll(x + tail), YYMAXDEPTH) == Accepted(Tree(c))
  {
    TerminatorIsEnd(tail);
    hide LexAll, Parse;
    assert !Extends(Number(0), First(tail));
    ReadableIsParsed(c, LexAll(x + tail), YYMAXDEPTH);
  }

  // ----- clauses on the last digits -----

  function Clause(k: nat, op: Token, m: nat): Cst {
    CInfix(op, CInfix(MulOp2(Module), CVar, CNum(k)), CNum(m))
  }

  lemma PercentSpelt()
    ensures Spell(MulOp2(Module)) == "%" && "" + "%" + "" == "%" && "n" + "%" == "n%"
  {
  }

  lemma SpellsRemainder(k: nat, ks: string)
    requires k < ULONG && ks == Decimal(k)
    ensures Spells("n%" + ks, CInfix(MulOp2(Module), CVar, CNum(k)))
  {
    hide Spells, Decimal, Spell;
    SpellsVar();
    SpellsNum(k);
    PercentSpelt();
    SpellsInfix("n", CVar, "%", "", MulOp2(Module), "", ks, CNum(k));
  }

  lemma SpellsClause(k: nat, ks: string, op: Token, ops: string, m: nat, ms: string)
    requires k < ULONG && m < ULONG && ks == Decimal(k) && ms == Decimal(m)
    requires IsBinary(op) && Proper(op) && ops == Spell(op)
    ensures Spells("n%" + ks + ops + ms, Clause(k, op, m))
  {
    hide Spells, Decimal, Spell;
    SpellsRemainder(k, ks);
    SpellsNum(m);
    assert "" + ops + "" == ops;
    SpellsInfix("n%" + ks, CInfix(MulOp2(Module), CVar, CNum(k)), ops, "", op, "", ms, CNum(m));
  }

  lemma SpellsBoth(x: string, l: Cst, z: string, r: Cst)
    requires Spells(x, l) && Spells(z, r)
    ensures Spells(x + " && " + z, CInfix(Ampersand, l, r))
    ensures Spells(x + " || " + z, CInfix(Bar, l, r))
  {
    assert " " + Spell(Ampersand) + " " == " && " && " " + Spell(Bar) + " " == " || ";
    hide Spells, Spell;
    SpellsInfix(x, l, " && ", " ", Ampersand, " ", z, r);
    SpellsInfix(x, l, " || ", " ", Bar, " ", z, r);
  }

  lemma SmallDecimals()
    ensures Decimal(0) == "0" && Decimal(1) == "1" && Decimal(2) == "2" && Decimal(3) == "3" && Decimal(4) == "4"
    ensures Decimal(10) == "10" && Decimal(11) == "11" && Decimal(20) == "20" && Decimal(100) == "100"
  {
    assert Decimal(10) == "1" + "0";
    assert Decimal(11) == "1" + "1";
    assert Decimal(20) == "2" + "0";
    assert Decimal(100) == "10" + "0";
  }

  lemma ComparisonsSpelt()
    ensures Spell(EquOp2(Equal)) == "==" && Spell(EquOp2(NotEqual)) == "!="
    ensures Spell(CmpOp2(LessThan)) == "<" && Spell(CmpOp2(GreaterThan)) == ">"
    ensures Spell(CmpOp2(LessOrEqual)) == "<=" && Spell(CmpOp2(GreaterOrEqual)) == ">="
  {
  }

  // ----- the Czech header -----

  const ONES_SPELT: string := "n%10==1 && n%100!=11"
  const FEW_SPELT: string := "n%10>=2 && n%10<=4 && (n%100<10 || n%100>=20)"
  const CZECH: string := ONES_SPELT + " ? 0 : " + FEW_SPELT + " ? 1 : 2"

  const ONES: Cst := CInfix(Ampersand, Clause(10, EquOp2(Equal), 1), Clause(100, EquOp2(NotEqual), 11))
  const OUTSIDE: Cst := CInfix(Bar, Clause(100, CmpOp2(LessThan), 10), Clause(100, CmpOp2(GreaterOrEqual), 20))
  const TWO_TO_FOUR: Cst :=
    CInfix(Ampersand, Clause(10, CmpOp2(GreaterOrEqual), 2), Clause(10, CmpOp2(LessOrEqual), 4))
  const FEW: Cst := CInfix(Ampersand, TWO_TO_FOUR, CParen(OUTSIDE))
  const CZECH_TEXT: Cst := CCond(ONES, CNum(0), CCond(FEW, CNum(1), CNum(2)))

  lemma OnesPasted()
    ensures "n%" + "10" + "==" + "1" == "n%10==1" && "n%" + "100" + "!=" + "11" == "n%100!=11"
    ensures "n%10==1" + " && " + "n%100!=11" == "n%10==1 && n%100!=11"
  {
  }

  lemma OutsidePasted()
    ensures "n%" + "100" + "<" + "10" == "n%100<10" && "n%" + "100" + ">=" + "20" == "n%100>=20"
    ensures "(" + ("n%100<10" + " || " + "n%100>=20") + ")" == "(n%100<10 || n%100>=20)"
  {
  }

  lemma TwoToFourPasted()
    ensures "n%" + "10" + ">=" + "2" == "n%10>=2" && "n%" + "10" + "<=" + "4" == "n%10<=4"
    ensures "n%10>=2" + " && " + "n%10<=4" == "n%10>=2 && n%10<=4"
  {
  }

  lemma FewPasted()
    ensures "n%10>=2 && n%10<=4" + " && " + "(n%100<10 || n%100>=20)"
         == "n%10>=2 && n%10<=4 && (n%100<10 || n%100>=20)"
  {
  }

  lemma SpellsOnes()
    ensures Spells("n%10==1 && n%100!=11", ONES)
  {
    hide Spells, Decimal, Spell;
    SmallDecimals();
    ComparisonsSpelt();
    OnesPasted();
    SpellsClause(10, "10", EquOp2(Equal), "==", 1, "1");
    SpellsClause(100, "100", EquOp2(NotEqual), "!=", 11, "11");
    SpellsBoth("n%10==1", Clause(10, EquOp2(Equal), 1), "n%100!=11", Clause(100, EquOp2(NotEqual), 11));
  }

  lemma SpellsOutside()
    ensures Spells("(n%100<10 || n%100>=20)", CParen(OUTSIDE))
  {
    hide Spells, Decimal, Spell;
    SmallDecimals();
    ComparisonsSpelt();
    OutsidePasted();
    SpellsClause(100, "100", CmpOp2(LessThan), "<", 10, "10");
    SpellsClause(100, "100", CmpOp2(GreaterOrEqual), ">=", 20, "20");
    SpellsBoth("n%100<10", Clause(100, CmpOp2(LessThan), 10), "n%100>=20", Clause(100, CmpOp2(GreaterOrEqual), 20));
    SpellsParen("n%100<10" + " || " + "n%100>=20", OUTSIDE);
  }

  lemma SpellsTwoToFour()
    ensures Spells("n%10>=2 && n%10<=4", TWO_TO_FOUR)
  {
    hide Spells, Decimal, Spell;
    SmallDecimals();
    ComparisonsSpelt();
    TwoToFourPasted();
    SpellsClause(10, "10", CmpOp2(GreaterOrEqual), ">=", 2, "2");
    SpellsClause(10, "10", CmpOp2(LessOrEqual), "<=", 4, "4");
    SpellsBoth("n%10>=2", Clause(10, CmpOp2(GreaterOrEqual), 2), "n%10<=4", Clause(10, CmpOp2(LessOrEqual), 4));
  }

  lemma SpellsFew()
    ensures Spells("n%10>=2 && n%10<=4 && (n%100<10 || n%100>=20)", FEW)
  {
    hide Spells;
    SpellsTwoToFour();
    SpellsOutside();
    SpellsBoth("n%10>=2 && n%10<=4", TWO_TO_FOUR, "(n%100<10 || n%100>=20)", CParen(OUTSIDE));
    FewPasted();
  }

  lemma SpellsCzech()
    ensures Spells(CZECH, CZECH_TEXT)
  {
    SmallDecimals();
    hide Spells, Decimal;
    SpellsOnes();
    SpellsFew();
    SpellsNum(0);
    SpellsNum(1);
    SpellsNum(2);
    SpellsCond(FEW_SPELT, FEW, "1", CNum(1), "2", CNum(2));
    SpellsCond(ONES_SPELT, ONES, "0", CNum(0), FEW_SPELT + " ? " + "1" + " : " + "2", CCond(FEW, CNum(1), CNum(2)));
    Choices(ONES_SPELT, FEW_SPELT);
  }

  lemma Choices(x: string, z: string)
    ensures x + " ? " + "0" + " : " + (z + " ? " + "1" + " : " + "2") == x + " ? 0 : " + z + " ? 1 : 2"
  {
    assert " ? " + "0" + " : " == " ? 0 : " && " ? " + "1" + " : " + "2" == " ? 1 : 2";
  }

  lemma CzechParsed(tail: string)
    requires Terminator(tail)
    ensures Obeys(CZECH_TEXT) && Parse(LexAll(CZECH + tail), YYMAXDEPTH) == Accepted(Tree(CZECH_TEXT))
  {
    SpellsCzech();
    hide Spells, Parse, LexAll;
    CzechObeys();
    TextParsed(CZECH, CZECH_TEXT, tail);
  }

  lemma InfixObeys(op: Token, l: Cst, r: Cst)
    requires IsBinary(op) && Obeys(l) && Obeys(r) && Prec(l) >= OpLevel(op) && Prec(r) > OpLevel(op)
    ensures var c := CInfix(op, l, r);
      Obeys(c) && Prec(c) == OpLevel(op) && Need(c) <= Need(l) + 2 + Need(r)
  {
  }

  lemma CondObeys(b: Cst, t: Cst, f: Cst)
    requires Obeys(b) && Obeys(t) && Obeys(f) && Prec(b) >= 1
    ensures var c := CCond(b, t, f);
      Obeys(c) && Need(c) <= Need(b) + 2 + Need(t) + 2 + Need(f)
  {
  }

  lemma ClauseObeys(k: nat, op: Token, m: nat)
    requires IsBinary(op) && OpLevel(op) < OpLevel(MulOp2(Module))
    ensures Obeys(Clause(k, op, m)) && Prec(Clause(k, op, m)) == OpLevel(op) && Need(Clause(k, op, m)) <= 7
  {
    InfixObeys(MulOp2(Module), CVar, CNum(k));
    InfixObeys(op, CInfix(MulOp2(Module), CVar, CNum(k)), CNum(m));
  }

  lemma OnesObey()
    ensures Obeys(ONES) && Prec(ONES) == 2 && Need(ONES) <= 20
  {
    hide Clause, Obeys, Need;
    ClauseObeys(10, EquOp2(Equal), 1);
    ClauseObeys(100, EquOp2(NotEqual), 11);
    InfixObeys(Ampersand, Clause(10, EquOp2(Equal), 1), Clause(100, EquOp2(NotEqual), 11));
  }

  lemma OutsideObeys()
    ensures Obeys(OUTSIDE) && Need(OUTSIDE) <= 20
  {
    hide Clause, Obeys, Need;
    ClauseObeys(100, CmpOp2(LessThan), 10);
    ClauseObeys(100, CmpOp2(GreaterOrEqual), 20);
    InfixObeys(Bar, Clause(100, CmpOp2(LessThan), 10), Clause(100, CmpOp2(GreaterOrEqual), 20));
  }

  lemma TwoToFourObeys()
    ensures Obeys(TWO_TO_FOUR) && Prec(TWO_TO_FOUR) == 2 && Need(TWO_TO_FOUR) <= 20
  {
    hide Clause, Obeys, Need;
    ClauseObeys(10, CmpOp2(GreaterOrEqual), 2);
    ClauseObeys(10, CmpOp2(LessOrEqual), 4);
    InfixObeys(Ampersand, Clause(10, CmpOp2(GreaterOrEqual), 2), Clause(10, CmpOp2(LessOrEqual), 4));
  }

  lemma FewObeys()
    ensures Obeys(FEW) && Prec(FEW) == 2 && Need(FEW) <= 50
  {
    hide Clause, Obeys, Need;
    TwoToFourObeys();
    OutsideObeys();
    InParentheses(OUTSIDE);
    InfixObeys(Ampersand, TWO_TO_FOUR, CParen(OUTSIDE));
  }

  lemma NumberObeys(k: nat)
    ensures Obeys(CNum(k)) && Need(CNum(k)) == 1
  {
  }

  lemma CzechObeys()
    ensures Obeys(CZECH_TEXT) && 1 + Need(CZECH_TEXT) < YYMAXDEPTH
  {
    hide Clause, Obeys, Need;
    OnesObey();
    FewObeys();
    NumberObeys(0);
    NumberObeys(1);
    NumberObeys(2);
    CondObeys(FEW, CNum(1), CNum(2));
    CondObeys(ONES, CNum(0), CCond(FEW, CNum(1), CNum(2)));
  }

  lemma InParentheses(c: Cst)
    ensures Obeys(CParen(c)) <==> Obeys(c)
    ensures Prec(CParen(c)) == 7 && Need(CParen(c)) <= 3 + Need(c)
  {
  }

  // ----- what the texts are worth -----

  /** The text obeys precedence, and its tree has this value for the count. */
  ghost predicate Means(c: Cst, n: nat, v: nat) {
    Obeys(c) && Worth(Tree(c), n, v)
  }

  lemma RemainderMeans(k: nat, n: nat)
    requires 0 < k < ULONG && n < ULONG
    ensures Means(CInfix(MulOp2(Module), CVar, CNum(k)), n, n % k)
  {
    Leaves(n, k);
    hide Eval;
    Applied(Module, Var, Num(k), n, n, k, n % k);
    assert Obeys(CVar) && Obeys(CNum(k)) && Tree(CVar) == Var && Tree(CNum(k)) == Num(k);
    assert n % k <= n;
  }

  lemma InfixMeans(op: Token, l: Cst, r: Cst, n: nat, x: nat, y: nat, v: nat)
    requires Means(l, n, x) && Means(r, n, y) && IsBinary(op) && op != Bar && op != Ampersand && Proper(op)
    requires Prec(l) >= OpLevel(op) && Prec(r) > OpLevel(op) && Apply(OperatorOf(op), x, y) == Some(v)
    ensures Means(CInfix(op, l, r), n, v)
  {
    hide Eval, Apply;
    Applied(OperatorOf(op), Tree(l), Tree(r), n, x, y, v);
  }

  lemma ClauseMeans(k: nat, op: Token, m: nat, n: nat, v: nat)
    requires 0 < k < ULONG && m < ULONG && n < ULONG
    requires (op.EquOp2? || op.CmpOp2?) && Proper(op) && Apply(OperatorOf(op), n % k, m) == Some(v)
    ensures Means(Clause(k, op, m), n, v)
  {
    RemainderMeans(k, n);
    Leaves(n, m);
    assert Means(CNum(m), n, m);
    hide Means, Apply;
    InfixMeans(op, CInfix(MulOp2(Module), CVar, CNum(k)), CNum(m), n, n % k, m, v);
  }

  lemma BothMean(l: Cst, r: Cst, n: nat, x: bool, y: bool)
    requires Means(l, n, Truth(x)) && Means(r, n, Truth(y))
    ensures Prec(l) >= 2 && Prec(r) > 2 ==> Means(CInfix(Ampersand, l, r), n, Truth(x && y))
    ensures Prec(l) >= 1 && Prec(r) > 1 ==> Means(CInfix(Bar, l, r), n, Truth(x || y))
  {
  }

  lemma CondMeans(b: Cst, t: Cst, f: Cst, n: nat, x: bool, y: nat, z: nat)
    requires Means(b, n, Truth(x)) && Means(t, n, y) && Means(f, n, z) && Prec(b) >= 1
    ensures Means(CCond(b, t, f), n, if x then y else z)
  {
  }

  lemma OnesMean(n: nat)
    requires n < ULONG
    ensures Means(ONES, n, Truth(n % 10 == 1 && n % 100 != 11))
  {
    ClauseMeans(10, EquOp2(Equal), 1, n, Truth(n % 10 == 1));
    ClauseMeans(100, EquOp2(NotEqual), 11, n, Truth(n % 100 != 11));
    hide Means, Clause, Apply;
    ClauseObeys(10, EquOp2(Equal), 1);
    ClauseObeys(100, EquOp2(NotEqual), 11);
    BothMean(Clause(10, EquOp2(Equal), 1), Clause(100, EquOp2(NotEqual), 11), n, n % 10 == 1, n % 100 != 11);
  }

  lemma OutsideMeans(n: nat)
    requires n < ULONG
    ensures Means(CParen(OUTSIDE), n, Truth(n % 100 < 10 || n % 100 >= 20))
  {
    ClauseMeans(100, CmpOp2(LessThan), 10, n, Truth(n % 100 < 10));
    ClauseMeans(100, CmpOp2(GreaterOrEqual), 20, n, Truth(n % 100 >= 20));
    ParenMeans(OUTSIDE, n, Truth(n % 100 < 10 || n % 100 >= 20));
    hide Means, Clause, Apply;
    ClauseObeys(100, CmpOp2(LessThan), 10);
    ClauseObeys(100, CmpOp2(GreaterOrEqual), 20);
    BothMean(Clause(100, CmpOp2(LessThan), 10), Clause(100, CmpOp2(GreaterOrEqual), 20), n, n % 100 < 10,
             n % 100 >= 20);
  }

  lemma ParenMeans(c: Cst, n: nat, v: nat)
    ensures Means(c, n, v) ==> Means(CParen(c), n, v)
  {
  }

  lemma TwoToFourMeans(n: nat)
    requires n < ULONG
    ensures Means(TWO_TO_FOUR, n, Truth(2 <= n % 10 <= 4))
  {
    ClauseMeans(10, CmpOp2(GreaterOrEqual), 2, n, Truth(n % 10 >= 2));
    ClauseMeans(10, CmpOp2(LessOrEqual), 4, n, Truth(n % 10 <= 4));
    hide Means, Clause, Apply;
    ClauseObeys(10, CmpOp2(GreaterOrEqual), 2);
    ClauseObeys(10, CmpOp2(LessOrEqual), 4);
    BothMean(Clause(10, CmpOp2(GreaterOrEqual), 2), Clause(10, CmpOp2(LessOrEqual), 4), n, n % 10 >= 2, n % 10 <= 4);
  }

  /** The Czech form for a count, by its last digits. */
  function CzechForm(n: nat): nat {
    if n % 10 == 1 && n % 100 != 11 then 0
    else if 2 <= n % 10 <= 4 && (n % 100 < 10 || n % 100 >= 20) then 1
    else 2
  }

  lemma CzechMeans(n: nat)
    requires n < ULONG
    ensures Means(CZECH_TEXT, n, CzechForm(n))
  {
    Leaves(n, 0);
    Leaves(n, 1);
    Leaves(n, 2);
    assert Means(CNum(0), n, 0) && Means(CNum(1), n, 1) && Means(CNum(2), n, 2);
    hide Means, Clause;
    OnesMean(n);
    OnesObey();
    TwoToFourMeans(n);
    TwoToFourObeys();
    OutsideMeans(n);
    BothMean(TWO_TO_FOUR, CParen(OUTSIDE), n, 2 <= n % 10 <= 4, n % 100 < 10 || n % 100 >= 20);
    FewObeys();
    var ones, few := n % 10 == 1 && n % 100 != 11, 2 <= n % 10 <= 4 && (n % 100 < 10 || n % 100 >= 20);
    CondMeans(FEW, CNum(1), CNum(2), n, few, 1, 2);
    CondMeans(ONES, CNum(0), CCond(FEW, CNum(1), CNum(2)), n, ones, 0, if few then 1 else 2);
  }

  // ----- the operators that header has not -----

  lemma SpellsOneMore(x: string, c: Cst, op: Token, ops: string, k: nat, ks: string)
    requires Spells(x, c) && Obeys(c) && Prec(c) >= OpLevel(op) && IsBinary(op) && Proper(op) && ops == Spell(op)
    requires k < ULONG && ks == Decimal(k)
    ensures var more := CInfix(op, c, CNum(k));
      Spells(x + ops + ks, more) && Obeys(more) && Prec(more) == OpLevel(op) && Need(more) <= Need(c) + 3
      && Tree(more) == Bin(OperatorOf(op), Tree(c), Num(k))
  {
    hide Spells, Decimal, Spell;
    SpellsNum(k);
    assert "" + ops + "" == ops;
    SpellsInfix(x, c, ops, "", op, "", ks, CNum(k));
  }

  /** A text with its tree. */
  ghost predicate Written(x: string, c: Cst, e: Expr, need: nat) {
    Spells(x, c) && Obeys(c) && Tree(c) == e && Need(c) <= need
  }

  lemma WrittenOneMore(x: string, c: Cst, e: Expr, need: nat, op: Token, ops: string, k: nat, ks: string)
    requires Written(x, c, e, need) && Prec(c) >= OpLevel(op) && IsBinary(op) && Proper(op) && ops == Spell(op)
    requires k < ULONG && ks == Decimal(k)
    ensures Written(x + ops + ks, CInfix(op, c, CNum(k)), Bin(OperatorOf(op), e, Num(k)), need + 3)
    ensures Prec(CInfix(op, c, CNum(k))) == OpLevel(op)
  {
    hide Spells, Decimal, Spell;
    SpellsOneMore(x, c, op, ops, k, ks);
  }

  lemma SpellsNoCount()
    ensures Written("!n", CNot(CVar), Lnot(Var), 2)
  {
    SpellsVar();
    SpellsNot("n", CVar);
    assert "!" + "n" == "!n";
    assert Obeys(CVar) && Need(CVar) == 1;
    hide Spells;
  }

  lemma ProductsAndSums() returns (c: Cst)
    ensures Written("!n*2/3+4", c, Bin(Plus, Bin(Divide, Bin(Mult, Lnot(Var), Num(2)), Num(3)), Num(4)), 20)
    ensures Prec(c) == 5
  {
    hide Written, Decimal, Spell;
    SmallDecimals();
    SpellsNoCount();
    SymbolsSpelt();
    Pasting();
    var c0 := CNot(CVar);
    WrittenOneMore("!n", c0, Lnot(Var), 2, MulOp2(Mult), "*", 2, "2");
    var c1, e1 := CInfix(MulOp2(Mult), c0, CNum(2)), Bin(Mult, Lnot(Var), Num(2));
    WrittenOneMore("!n*2", c1, e1, 5, MulOp2(Divide), "/", 3, "3");
    var c2, e2 := CInfix(MulOp2(Divide), c1, CNum(3)), Bin(Divide, e1, Num(3));
    WrittenOneMore("!n*2/3", c2, e2, 8, AddOp2(Plus), "+", 4, "4");
    c := CInfix(AddOp2(Plus), c2, CNum(4));
    NeedsMore("!n*2/3+4", c, Bin(Plus, e2, Num(4)), 11, 20);
  }

  lemma NeedsMore(x: string, c: Cst, e: Expr, need: nat, more: nat)
    requires Written(x, c, e, need) && need <= more
    ensures Written(x, c, e, more)
  {
    hide Spells;
  }

  /** Each operator has its spelling, and those of one precedence associate to the left. */
  lemma OtherOperators()
    ensures Parse(LexAll("!n*2/3+4-0>1" + ";"), YYMAXDEPTH)
         == Accepted(Bin(GreaterThan, Bin(Minus, Bin(Plus, Bin(Divide, Bin(Mult, Lnot(Var), Num(2)), Num(3)), Num(4)),
                                          Num(0)), Num(1)))
  {
    SmallDecimals();
    SymbolsSpelt();
    Pasting();
    hide Written, Decimal, Spell, Prec, Parse, LexAll;
    var e3 := Bin(Plus, Bin(Divide, Bin(Mult, Lnot(Var), Num(2)), Num(3)), Num(4));
    var c3 := ProductsAndSums();
    WrittenOneMore("!n*2/3+4", c3, e3, 20, AddOp2(Minus), "-", 0, "0");
    var c4, e4 := CInfix(AddOp2(Minus), c3, CNum(0)), Bin(Minus, e3, Num(0));
    WrittenOneMore("!n*2/3+4-0", c4, e4, 23, CmpOp2(GreaterThan), ">", 1, "1");
    WrittenParsed("!n*2/3+4-0>1", CInfix(CmpOp2(GreaterThan), c4, CNum(1)), Bin(GreaterThan, e4, Num(1)));
  }

  lemma WrittenParsed(x: string, c: Cst, e: Expr)
    requires Written(x, c, e, 26)
    ensures Parse(LexAll(x + ";"), YYMAXDEPTH) == Accepted(e)
  {
    hide Spells, Parse, LexAll;
    TextParsed(x, c, ";");
  }

  lemma SymbolsSpelt()
    ensures Spell(MulOp2(Mult)) == "*" && Spell(MulOp2(Divide)) == "/" && Spell(AddOp2(Plus)) == "+"
    ensures Spell(AddOp2(Minus)) == "-" && Spell(CmpOp2(GreaterThan)) == ">"
  {
  }

  lemma Pasting()
    ensures "!n" + "*" + "2" == "!n*2" && "!n*2" + "/" + "3" == "!n*2/3" && "!n*2/3" + "+" + "4" == "!n*2/3+4"
    ensures "!n*2/3+4" + "-" + "0" == "!n*2/3+4-0" && "!n*2/3+4-0" + ">" + "1" == "!n*2/3+4-0>1"
  {
  }

  // ----- numbers, blanks and the end of a text -----

  lemma WrappedDigit(v: nat, digit: nat)
    requires digit < 10
    ensures Accumulate(v % ULONG, digit) == (v * 10 + digit) % ULONG
  {
    var a := v % ULONG;
    var b := a * 10 % ULONG;
    var r := (b + digit) % ULONG;
    RemainderIs(v * 10 + digit, v / ULONG * 10 + a * 10 / ULONG + (b + digit) / ULONG, r, ULONG);
  }

  lemma {:induction false} FoldIsValue(x: string)
    requires AllDigits(x)
    ensures Fold(x, 0) == Value(x) % ULONG
  {
    if x != "" {
      var n := |x| - 1;
      assert x == x[..n] + [x[n]];
      FoldIsValue(x[..n]);
      FoldSnoc(x[..n], x[n], 0);
      WrappedDigit(Value(x[..n]), DigitValue(x[n]));
      hide Accumulate, Fold;
    }
  }

  /** However many digits a number has, it is scanned as one token, with its value modulo the word. */
  lemma NumberScanned(x: string, y: string)
    requires x != "" && AllDigits(x) && !IsDigit(First(y))
    ensures LexAll(x + y) == [Number(Value(x) % ULONG)] + LexAll(y)
  {
    FoldIsValue(x);
    LeadingDigit(x, y);
    hide Digits, Fold, Value, Symbol;
    assert Lex(x + y) == (Number(Value(x) % ULONG), y);
  }

  lemma LeadingDigit(x: string, y: string)
    requires x != "" && AllDigits(x) && !IsDigit(First(y))
    ensures (x + y)[0] == x[0] && Digits((x + y)[1..], DigitValue(x[0])) == (Fold(x, 0), y)
  {
    assert (x + y)[1..] == x[1..] + y && Accumulate(0, DigitValue(x[0])) == DigitValue(x[0]);
    DigitsFold(x[1..], y, DigitValue(x[0]));
    assert Fold(x, 0) == Fold(x[1..], DigitValue(x[0]));
  }

  /** Spaces and tabs are passed over, and a text ends with a semicolon, a newline or a NUL; but no other blank is. */
  lemma EndsAndBlanks()
    ensures LexAll("\t n") == [VarN] && LexAll("n;n") == [VarN] && LexAll("n\nn") == [VarN] && LexAll("n\0n") == [VarN]
    ensures LexAll("\rn") == [Bad, VarN]
  {
    assert "\t " + ("n" + "") == "\t n" && "" + ("n" + ";n") == "n;n" && "" + ("n" + "\nn") == "n\nn";
    assert "" + ("n" + "\0n") == "n\0n" && "" + ("n" + "") == "n";
    hide LexAll;
    OneVar("\t ", "");
    OneVar("", ";n");
    OneVar("", "\nn");
    OneVar("", "\0n");
    OneVar("", "");
    NoBlank();
  }

  lemma NoBlank()
    ensures LexAll("\rn") == [Bad] + LexAll("n")
  {
    assert "\rn"[1..] == "n" && SkipBlanks("\rn") == "\rn";
    assert Lex("\rn") == (Bad, "n");
  }

  lemma OneVar(gap: string, rest: string)
    requires Blanks(gap) && EndsInput(First(rest))
    ensures LexAll(gap + ("n" + rest)) == [VarN]
  {
    var x := "n" + rest;
    BlanksIgnored(gap, x);
    assert x[1..] == rest && SkipBlanks(x) == x;
    assert Lex(gap + x) == Lex(x) == (VarN, rest);
    assert Lex(rest).0 == End;
  }

  // ----- headers -----

  /** The line of a header, with one digit for the number of forms. */
  function HeaderLine(count: nat, text: string): string {
    "nplurals=" + Decimal(count) + "; plural=" + text + ";\n"
  }

  lemma KeysFound(digit: char, rest: string)
    requires IsDigit(digit)
    ensures var h := "nplurals=" + [digit] + "; plural=" + rest;
      FirstAt(h, "nplurals=", 0) && FirstAt(h, "plural=", 12)
  {
    var h := "nplurals=" + [digit] + "; plural=" + rest;
    assert h[0..0 + 9] == "nplurals=" && h[12..12 + 7] == "plural=";
    assert h[1] == 'p' && h[7] == 's';
    forall k: nat | k < 12
      ensures !Occurs(h, "plural=", k)
    {
      NotThere(h, "plural=", k, if k == 1 then 6 else 0);
    }
  }

  lemma NotThere(s: string, word: string, k: nat, i: nat)
    requires i < |word| && k + |word| <= |s| && s[k + i] != word[i]
    ensures !Occurs(s, word, k)
  {
    assert s[k..k + |word|][i] == s[k + i];
  }

  /** What such a header declares. */
  lemma LineDeclares(count: nat, text: string, c: Cst)
    requires count < 10 && Spells(text, c) && Obeys(c) && 1 + Need(c) < YYMAXDEPTH
    ensures var h := HeaderLine(count, text);
      && Declares(h, 12, 0) && UnsignedAt(h, PastSpaces(h, 9)).0 == count
      && Parse(LexAll(h[12 + 7..]), YYMAXDEPTH) == Accepted(Tree(c))
  {
    var rest := text + ";\n";
    TextParsed(text, c, ";\n");
    hide LexAll, Parse, Spells, UnsignedAt, PastSpaces, FirstAt, Declares, HeaderText, HeaderLine, Decimal;
    OneDigit(count);
    LineIsText(count, text);
    KeysFound(Decimal(count)[0], rest);
    DeclaredIn(count, rest);
  }

  lemma DeclaredIn(count: nat, rest: string)
    requires count < 10 && Parse(LexAll(rest), YYMAXDEPTH).Accepted?
    ensures var h := HeaderText("", "", count, "; ", rest);
      FirstAt(h, "nplurals=", 0) && FirstAt(h, "plural=", 12) ==>
        Declares(h, 12, 0) && h[12 + 7..] == rest && UnsignedAt(h, PastSpaces(h, 9)).0 == count
  {
    hide LexAll, Parse, UnsignedAt, PastSpaces, FirstAt, Declares, HeaderText, Decimal;
    OneDigit(count);
    NothingBefore();
    HeaderDeclares("", "", count, "; ", rest);
  }

  lemma NothingBefore()
    ensures |"; "| == 2 && !IsDigit("; "[0])
  {
  }

  lemma OneDigit(count: nat)
    requires count < 10
    ensures |Decimal(count)| == 1
  {
  }

  lemma LineIsText(count: nat, text: string)
    requires |Decimal(count)| == 1
    ensures HeaderLine(count, text) == HeaderText("", "", count, "; ", text + ";\n")
    ensures HeaderLine(count, text) == "nplurals=" + [Decimal(count)[0]] + "; plural=" + (text + ";\n")
  {
    hide Decimal;
    var d := Decimal(count);
    assert d == [d[0]];
    Pasted(d, text);
  }

  lemma Pasted(d: string, text: string)
    ensures "nplurals=" + d + "; plural=" + text + ";\n" == "nplurals=" + d + "; plural=" + (text + ";\n")
    ensures "" + "nplurals=" + "" + d + "; " + "plural=" + (text + ";\n")
         == "nplurals=" + d + "; plural=" + (text + ";\n")
  {
    assert "; " + "plural=" == "; plural=";
  }

  /** The header of the Czech catalogue and that of most others. */
  const CZECH_HEADER: string := "nplurals=3; plural=" + CZECH + ";\n"
  const NOT_ONE_HEADER: string := "nplurals=2; plural=" + "n != 1" + ";\n"

  lemma CzechDeclared()
    ensures CZECH_HEADER == HeaderLine(3, CZECH) && Obeys(CZECH_TEXT)
    ensures Declares(CZECH_HEADER, 12, 0) && UnsignedAt(CZECH_HEADER, PastSpaces(CZECH_HEADER, 9)).0 == 3
    ensures Parse(LexAll(CZECH_HEADER[12 + 7..]), YYMAXDEPTH) == Accepted(Tree(CZECH_TEXT))
  {
    SmallDecimals();
    assert "nplurals=" + "3" + "; plural=" == "nplurals=3; plural=";
    SpellsCzech();
    CzechObeys();
    hide Spells, Obeys, Need, Declares, UnsignedAt, PastSpaces, Parse, LexAll, Decimal;
    LineDeclares(3, CZECH, CZECH_TEXT);
  }

  const NOT_ONE: Cst := CInfix(EquOp2(NotEqual), CVar, CNum(1))

  lemma NotOnePasted()
    ensures " " + "!=" + " " == " != " && "n" + " != " + "1" == "n != 1"
  {
  }

  lemma SpellsNotOne()
    ensures Spells("n != 1", NOT_ONE)
  {
    hide Spells, Decimal, Spell;
    SmallDecimals();
    ComparisonsSpelt();
    NotOnePasted();
    SpellsVar();
    SpellsNum(1);
    SpellsInfix("n", CVar, " != ", " ", EquOp2(NotEqual), " ", "1", CNum(1));
  }

  lemma NotOneDeclared()
    ensures NOT_ONE_HEADER == HeaderLine(2, "n != 1") && Obeys(NOT_ONE)
    ensures Declares(NOT_ONE_HEADER, 12, 0) && UnsignedAt(NOT_ONE_HEADER, PastSpaces(NOT_ONE_HEADER, 9)).0 == 2
    ensures Parse(LexAll(NOT_ONE_HEADER[12 + 7..]), YYMAXDEPTH) == Accepted(GERMANIC)
  {
    SmallDecimals();
    assert "nplurals=" + "2" + "; plural=" == "nplurals=2; plural=";
    SpellsNotOne();
    NumberObeys(1);
    assert Obeys(CVar) && Need(CVar) == 1 && Tree(NOT_ONE) == GERMANIC;
    InfixObeys(EquOp2(NotEqual), CVar, CNum(1));
    hide Spells, Obeys, Need, Declares, UnsignedAt, PastSpaces, Parse, LexAll, Decimal;
    LineDeclares(2, "n != 1", NOT_ONE);
  }

  /** A form without the NUL that ends it. */
  predicate Plain(x: string) {
    forall i :: 0 <= i < |x| ==> x[i] != '\0'
  }

  lemma FormAppended(trans: string, x: string, k: nat)
    requires (trans == [] || Closed(trans)) && Forms(trans) == k && Plain(x)
    ensures Closed(trans + x + "\0") && Forms(trans + x + "\0") == k + 1
    ensures forall more: string :: StartsForm(trans + x + "\0" + more, |trans|, k)
  {
    NoNul(x);
    assert Forms("\0") == 1 by {
      assert "\0"[..0] == [];
    }
    FormsAppend(trans, x);
    FormsAppend(trans + x, "\0");
    forall more: string
      ensures StartsForm(trans + x + "\0" + more, |trans|, k)
    {
      assert (trans + x + "\0" + more)[..|trans|] == trans;
    }
  }

  lemma ThreeForms(one: string, few: string, many: string)
    requires Plain(one) && Plain(few) && Plain(many)
    ensures var trans := one + "\0" + few + "\0" + many + "\0";
      && Closed(trans) && Forms(trans) == 3
      && StartsForm(trans, 0, 0) && StartsForm(trans, |one| + 1, 1) && StartsForm(trans, |one| + 1 + |few| + 1, 2)
  {
    var a, b, c := "" + one + "\0", few + "\0", many + "\0";
    var trans := one + "\0" + few + "\0" + many + "\0";
    hide StartsForm, Forms, Closed;
    assert Forms("") == 0 by {
      NoNul("");
    }
    FormAppended("", one, 0);
    FormAppended(a, few, 1);
    FormAppended(a + few + "\0", many, 2);
    assert trans == a + few + "\0" + many + "\0" + "" && trans == a + (b + c) && trans == a + few + "\0" + c;
    assert a + (b + c) == "" + one + "\0" + (b + c);
    assert a + few + "\0" + many + "\0" == trans;
  }

  lemma TwoForms(one: string, few: string)
    requires Plain(one) && Plain(few)
    ensures var trans := one + "\0" + few + "\0";
      Closed(trans) && Forms(trans) == 2 && StartsForm(trans, 0, 0) && StartsForm(trans, |one| + 1, 1)
  {
    var a := "" + one + "\0";
    var trans := one + "\0" + few + "\0";
    hide StartsForm, Forms, Closed;
    assert Forms("") == 0 by {
      NoNul("");
    }
    FormAppended("", one, 0);
    FormAppended(a, few, 1);
    assert a == one + "\0" && trans == a + few + "\0" + "" && trans == a + (few + "\0");
  }

  /** A form that the translation has not, or that the header does not count, is replaced by the first: of a Czech
      translation with only two forms, and of one with three under a header that declares two. */
  method MissingForms(n: nat, one: string, few: string, many: string) returns (p: nat, q: nat)
    requires n < ULONG && Plain(one) && Plain(few) && Plain(many)
    ensures p == q == if 2 <= n % 10 <= 4 && (n % 100 < 10 || n % 100 >= 20) then |one| + 1 else 0
  {
    CzechDeclared();
    CzechMeans(n);
    SpellsCzech();
    CzechObeys();
    TwoForms(one, few);
    ThreeForms(one, few, many);
    hide Declares, UnsignedAt, PastSpaces, Parse, LexAll, Spells, StartsForm, Forms, CzechForm, Need;
    LineDeclares(2, CZECH, CZECH_TEXT);
    var form := if CzechForm(n) == 1 then 1 else 0;
    var start := FormFor(Some(CZECH_HEADER), n, one + "\0" + few + "\0");
    p := start.value;
    FormStartUnique(one + "\0" + few + "\0", p, if form == 1 then |one| + 1 else 0, form);
    start := FormFor(Some(HeaderLine(2, CZECH)), n, one + "\0" + few + "\0" + many + "\0");
    q := start.value;
    FormStartUnique(one + "\0" + few + "\0" + many + "\0", q, if form == 1 then |one| + 1 else 0, form);
    FewIsOne(n);
  }

  lemma FewIsOne(n: nat)
    ensures CzechForm(n) <= 2
    ensures CzechForm(n) == 1 <==> 2 <= n % 10 <= 4 && (n % 100 < 10 || n % 100 >= 20)
  {
  }

  /** The Czech catalogue: a translation of three forms gives the first for counts that end in 1 but not in 11, the
      second for those that end in 2 to 4 but not in 12 to 14, and the third for all others. */
  method CzechTranslation(n: nat, one: string, few: string, many: string) returns (p: nat)
    requires n < ULONG && Plain(one) && Plain(few) && Plain(many)
    ensures p == if n % 10 == 1 && n % 100 != 11 then 0
                 else if 2 <= n % 10 <= 4 && (n % 100 < 10 || n % 100 >= 20) then |one| + 1
                 else |one| + 1 + |few| + 1
  {
    CzechDeclared();
    CzechMeans(n);
    var trans := one + "\0" + few + "\0" + many + "\0";
    ThreeForms(one, few, many);
    hide Declares, UnsignedAt, PastSpaces, Parse, LexAll, Spells, StartsForm, Forms, CzechForm;
    var start := FormFor(Some(CZECH_HEADER), n, trans);
    p := start.value;
    FormStartUnique(trans, p, if CzechForm(n) == 0 then 0 else if CzechForm(n) == 1 then |one| + 1
                              else |one| + 1 + |few| + 1, CzechForm(n));
  }
}
