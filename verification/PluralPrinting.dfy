/** Writing an expression tree with the fewest parentheses, and the round trip through scanner and parser. */
module PluralPrinting {
  import opened PluralSyntax
  import opened PluralParser
  import opened PluralGrammar
  import opened PluralLexer

  function TokenOf(op: BinOp): (t: Token)
    ensures IsBinary(t) && Proper(t) && OperatorOf(t) == op
  {
    match op
    case Lor => Bar
    case Land => Ampersand
    case Equal => EquOp2(Equal)
    case NotEqual => EquOp2(NotEqual)
    case LessThan => CmpOp2(LessThan)
    case GreaterThan => CmpOp2(GreaterThan)
    case LessOrEqual => CmpOp2(LessOrEqual)
    case GreaterOrEqual => CmpOp2(GreaterOrEqual)
    case Plus => AddOp2(Plus)
    case Minus => AddOp2(Minus)
    case Mult => MulOp2(Mult)
    case Divide => MulOp2(Divide)
    case Module => MulOp2(Module)
  }

  lemma TokenOfOperator(t: Token)
    requires IsBinary(t) && Proper(t)
    ensures TokenOf(OperatorOf(t)) == t
  {
  }

  /** Every number in the tree fits the machine word. */
  predicate FitsWord(e: Expr) {
    match e
    case Var => true
    case Num(n) => n < ULONG
    case Lnot(a) => FitsWord(a)
    case Bin(_, l, r) => FitsWord(l) && FitsWord(r)
    case Qmop(b, t, f) => FitsWord(b) && FitsWord(t) && FitsWord(f)
  }

  /** The text of a tree without outer parentheses. */
  function Bare(e: Expr): Cst
    decreases e, 0
  {
    match e
    case Var => CVar
    case Num(n) => CNum(n)
    case Lnot(a) => CNot(Write(a, 7))
    case Bin(op, l, r) => CInfix(TokenOf(op), Write(l, OpLevel(TokenOf(op))), Write(r, OpLevel(TokenOf(op)) + 1))
    case Qmop(b, t, f) => CCond(Write(b, 1), Write(t, 0), Write(f, 0))
  }

  /** The text of a tree where at least precedence `level` is called for: parentheses only if it is weaker. */
  function Write(e: Expr, level: int): Cst
    decreases e, 1
  {
    if Prec(Bare(e)) >= level then Bare(e) else CParen(Bare(e))
  }

  lemma WrittenObeys(e: Expr, level: int)
    requires level <= 7
    ensures Obeys(Write(e, level)) && Tree(Write(e, level)) == e && Prec(Write(e, level)) >= level
    decreases e, 1
  {
    BareObeys(e);
  }

  lemma BareObeys(e: Expr)
    ensures Obeys(Bare(e)) && Tree(Bare(e)) == e
    decreases e, 0
  {
    match e {
      case Var => case Num(_) =>
      case Lnot(a) => WrittenObeys(a, 7);
      case Bin(op, l, r) =>
        WrittenObeys(l, OpLevel(TokenOf(op)));
        WrittenObeys(r, OpLevel(TokenOf(op)) + 1);
      case Qmop(b, t, f) =>
        WrittenObeys(b, 1);
        WrittenObeys(t, 0);
        WrittenObeys(f, 0);
    }
  }

  /** Number of pairs of parentheses in a text. */
  function Parens(c: Cst): nat {
    match c
    case CVar => 0
    case CNum(_) => 0
    case CNot(a) => Parens(a)
    case CInfix(_, l, r) => Parens(l) + Parens(r)
    case CCond(b, t, f) => Parens(b) + Parens(t) + Parens(f)
    case CParen(a) => 1 + Parens(a)
  }

  /** All infix operators of the text are ones the scanner knows. */
  predicate ProperText(c: Cst) {
    match c
    case CVar => true
    case CNum(n) => n < ULONG
    case CNot(a) => ProperText(a)
    case CInfix(op, l, r) => Proper(op) && ProperText(l) && ProperText(r)
    case CCond(b, t, f) => ProperText(b) && ProperText(t) && ProperText(f)
    case CParen(a) => ProperText(a)
  }

  /** The parentheses of a written tree are those of its subtrees, and one pair where it is too weak for its place. */
  lemma NotParens(a: Expr, level: int)
    requires level <= 7
    ensures Parens(Write(Lnot(a), level)) == Parens(Write(a, 7))
  {
  }

  lemma InfixParens(op: BinOp, l: Expr, r: Expr, level: int)
    ensures var own := OpLevel(TokenOf(op));
      Parens(Write(Bin(op, l, r), level))
        == Parens(Write(l, own)) + Parens(Write(r, own + 1)) + if own >= level then 0 else 1
  {
    hide TokenOf;
  }

  lemma CondParens(b: Expr, t: Expr, f: Expr, level: int)
    ensures Parens(Write(Qmop(b, t, f), level))
         == Parens(Write(b, 1)) + Parens(Write(t, 0)) + Parens(Write(f, 0)) + if level <= 0 then 0 else 1
  {
  }

  lemma OnePairMore(e: Expr, level: int)
    ensures Parens(Write(e, level)) <= Parens(Write(e, 0)) + 1
  {
    hide Bare;
  }

  /** No text of the same tree in the same place has fewer parentheses than `Write` gives it. */
  lemma {:induction false} WrittenIsLeast(c: Cst, level: int)
    requires Obeys(c) && ProperText(c) && level <= 7 && Prec(c) >= level
    ensures Parens(Write(Tree(c), level)) <= Parens(c)
    decreases c
  {
    match c {
      case CVar => case CNum(_) =>
      case CNot(a) =>
        hide Write;
        WrittenIsLeast(a, 7);
        NotParens(Tree(a), level);
      case CInfix(op, l, r) =>
        hide Write, TokenOf, OperatorOf;
        TokenOfOperator(op);
        WrittenIsLeast(l, OpLevel(op));
        WrittenIsLeast(r, OpLevel(op) + 1);
        InfixParens(OperatorOf(op), Tree(l), Tree(r), level);
      case CCond(b, t, f) =>
        hide Write;
        WrittenIsLeast(b, 1);
        WrittenIsLeast(t, 0);
        WrittenIsLeast(f, 0);
        CondParens(Tree(b), Tree(t), Tree(f), level);
      case CParen(a) =>
        hide Write;
        WrittenIsLeast(a, 0);
        OnePairMore(Tree(a), level);
    }
  }

  lemma WrittenIsProper(e: Expr, level: int)
    requires FitsWord(e)
    ensures ProperText(Write(e, level))
    decreases e
  {
    match e {
      case Var => case Num(_) =>
      case Lnot(a) => WrittenIsProper(a, 7);
      case Bin(op, l, r) =>
        WrittenIsProper(l, OpLevel(TokenOf(op)));
        WrittenIsProper(r, OpLevel(TokenOf(op)) + 1);
      case Qmop(b, t, f) =>
        WrittenIsProper(b, 1);
        WrittenIsProper(t, 0);
        WrittenIsProper(f, 0);
    }
  }

  /** Tokens with which an expression can begin. */
  predicate Begins(t: Token) {
    t == VarN || t.Number? || t == Bang || t == LParen
  }

  /** Proper tokens, each of which may be written right after the one before. */
  predicate Writable(ts: seq<Token>) {
    && (forall i :: 0 <= i < |ts| ==> Proper(ts[i]))
    && (forall i :: 0 < i < |ts| ==> Separate(ts[i - 1], ts[i]))
  }

  lemma PrependWritable(t: Token, ts: seq<Token>)
    requires Proper(t) && Writable(ts) && (ts != [] ==> Separate(t, ts[0]))
    ensures Writable([t] + ts) && ([t] + ts)[0] == t
  {
  }

  /** The tokens of an expression never run together, even without blanks. */
  lemma {:induction false} YieldWritable(c: Cst, rest: seq<Token>)
    requires Obeys(c) && ProperText(c) && Writable(rest) && (rest != [] ==> !Begins(rest[0]))
    ensures Writable(Yield(c, rest)) && Yield(c, rest) != [] && Begins(Yield(c, rest)[0])
    decreases c
  {
    hide Writable;
    match c {
      case CVar => PrependWritable(VarN, rest);
      case CNum(n) => PrependWritable(Number(n), rest);
      case CNot(a) =>
        YieldWritable(a, rest);
        PrependWritable(Bang, Yield(a, rest));
      case CParen(a) =>
        PrependWritable(RParen, rest);
        YieldWritable(a, [RParen] + rest);
        PrependWritable(LParen, Yield(a, [RParen] + rest));
      case CInfix(op, l, r) =>
        YieldWritable(r, rest);
        PrependWritable(op, Yield(r, rest));
        YieldWritable(l, [op] + Yield(r, rest));
      case CCond(b, t, f) =>
        YieldWritable(f, rest);
        PrependWritable(Colon, Yield(f, rest));
        YieldWritable(t, [Colon] + Yield(f, rest));
        PrependWritable(Question, Yield(t, [Colon] + Yield(f, rest)));
        YieldWritable(b, [Question] + Yield(t, [Colon] + Yield(f, rest)));
    }
  }

  /** The tokens of the shortest way to write a tree. */
  function Tokens(e: Expr): seq<Token> {
    Yield(Write(e, 0), [])
  }

  lemma TokensLegible(e: Expr, gaps: seq<string>)
    requires FitsWord(e) && |gaps| == |Tokens(e)| && forall i :: 0 <= i < |gaps| ==> Blanks(gaps[i])
    ensures Legible(Tokens(e), gaps)
  {
    WrittenObeys(e, 0);
    WrittenIsProper(e, 0);
    YieldWritable(Write(e, 0), []);
  }

  /** Round trip: a tree written with the fewest parentheses and any spacing is parsed back to itself,
      unless it nests too deeply for the parser's stack, which is then reported as such. */
  lemma PrintedParsesBack(e: Expr, gaps: seq<string>, tail: string, limit: nat)
    requires FitsWord(e) && |gaps| == |Tokens(e)| && forall i :: 0 <= i < |gaps| ==> Blanks(gaps[i])
    requires Terminator(tail) && 3 < limit
    ensures Legible(Tokens(e), gaps)
    ensures Parse(LexAll(Layout(Tokens(e), gaps, tail)), limit)
         == if 1 + Need(Write(e, 0)) >= limit then Overflowed else Accepted(e)
  {
    TokensLegible(e, gaps);
    LexUndoesLayout(Tokens(e), gaps, tail);
    WrittenObeys(e, 0);
    ReadableIsParsed(Write(e, 0), Tokens(e), limit);
  }
}
