/** The precedence grammar of plural expressions, and the proof that the driver parses exactly it. */
module PluralGrammar {
  import opened PluralSyntax
  import opened PluralTables
  import opened PluralParser
  import opened Wrappers

  /** Concrete syntax: an expression as written, parentheses included. */
  datatype Cst =
    | CVar
    | CNum(num: nat)
    | CNot(arg: Cst)
    | CInfix(op: Token, left: Cst, right: Cst)
    | CCond(bexp: Cst, tbranch: Cst, fbranch: Cst)
    | CParen(inner: Cst)

  /** 0 for `?:`, 1 to 6 for the infix operators, 7 for `!` and everything that binds tighter. */
  function Prec(c: Cst): int {
    match c
    case CCond(_, _, _) => 0
    case CInfix(op, _, _) => OpLevel(op)
    case _ => 7
  }

  /** The text obeys precedence: infix operators associate to the left, `?:` to the right. */
  predicate Obeys(c: Cst) {
    match c
    case CVar => true
    case CNum(_) => true
    case CNot(a) => Obeys(a) && Prec(a) >= 7
    case CInfix(op, l, r) => IsBinary(op) && Obeys(l) && Obeys(r) && Prec(l) >= OpLevel(op) && Prec(r) > OpLevel(op)
    case CCond(b, t, f) => Obeys(b) && Obeys(t) && Obeys(f) && Prec(b) >= 1
    case CParen(a) => Obeys(a)
  }

  /** The tree meant by a text. */
  function Tree(c: Cst): Expr
    requires Obeys(c)
  {
    match c
    case CVar => Var
    case CNum(n) => Num(n)
    case CNot(a) => Lnot(Tree(a))
    case CInfix(op, l, r) => Bin(OperatorOf(op), Tree(l), Tree(r))
    case CCond(b, t, f) => Qmop(Tree(b), Tree(t), Tree(f))
    case CParen(a) => Tree(a)
  }

  /** The tokens of a text, followed by `rest`. */
  function Yield(c: Cst, rest: seq<Token>): seq<Token> {
    match c
    case CVar => [VarN] + rest
    case CNum(n) => [Number(n)] + rest
    case CNot(a) => [Bang] + Yield(a, rest)
    case CInfix(op, l, r) => Yield(l, [op] + Yield(r, rest))
    case CCond(b, t, f) => Yield(b, [Question] + Yield(t, [Colon] + Yield(f, rest)))
    case CParen(a) => [LParen] + Yield(a, [RParen] + rest)
  }

  /** `c` is a reading of `tokens` as an expression. */
  predicate Reads(c: Cst, tokens: seq<Token>) {
    Obeys(c) && Yield(c, []) == tokens
  }

  /** How many states the driver stacks, at most, above where the text begins. */
  function Need(c: Cst): nat {
    match c
    case CVar => 1
    case CNum(_) => 1
    case CNot(a) => 1 + Need(a)
    case CInfix(_, l, r) => Max(Need(l), 2 + Need(r))
    case CCond(b, t, f) => Max(Need(b), Max(2 + Need(t), 4 + Need(f)))
    case CParen(a) => Max(1 + Need(a), 3)
  }

  function Max(a: nat, b: nat): nat {
    if a < b then b else a
  }

  /** Whether the token after a complete text makes the driver reduce it as a whole. */
  predicate Ends(c: Cst, next: Token) {
    if Prec(c) == 0 then OpLevel(next) < 0 else OpLevel(next) <= Prec(c)
  }

  // ----- every reading is accepted -----

  /** The configuration after the text has been read and reduced. */
  function After(st: Stack, e: Expr, rest: seq<Token>, res: Option<Expr>): Config {
    Config(Push(st, GotoExp(Top(st)), Exp(e)), rest, res)
  }

  /** What reading `c` from stack `st` comes to: overflow, or the run that continues after it. */
  function Continued(c: Cst, st: Stack, rest: seq<Token>, res: Option<Expr>, limit: nat): Outcome
    requires Matches(st) && StartsExp(Top(st)) && Obeys(c)
  {
    if Size(st) + Need(c) >= limit then Overflowed else Run(After(st, Tree(c), rest, res), limit)
  }

  predicate CanRead(c: Cst, st: Stack, rest: seq<Token>) {
    && Matches(st) && StartsExp(Top(st)) && Top(st) < YYFINAL
    && Obeys(c) && Prec(c) >= MinLevel(Top(st)) && Ends(c, Head(rest))
  }

  lemma ShiftStep(st: Stack, t: Token, rest: seq<Token>, res: Option<Expr>, limit: nat)
    requires Matches(st) && Act(Top(st), Sym(t)).Shift?
    requires Access(Act(Top(st), Sym(t)).state) == Sym(t)
    ensures Matches(Push(st, Act(Top(st), Sym(t)).state, Tok(t)))
    ensures Run(Config(st, [t] + rest, res), limit)
         == if Size(st) + 1 >= limit then Overflowed
            else Run(Config(Push(st, Act(Top(st), Sym(t)).state, Tok(t)), rest, res), limit)
  {
    var c := Config(st, [t] + rest, res);
    assert Head(c.rest) == t && Tail(c.rest) == rest;
  }

  lemma ReduceStep(st: Stack, rule: int, rest: seq<Token>, res: Option<Expr>, limit: nat)
    requires Matches(st) && Act(Top(st), Sym(Head(rest))) == Reduce(rule) && 2 <= rule <= 12
    requires Size(st) < limit
    ensures HandleOnTop(st, rule) && Matches(Reduced(st, rule))
    ensures Run(Config(st, rest, res), limit) == Run(Config(Reduced(st, rule), rest, res), limit)
  {
    ReduceFindsHandle(st, Sym(Head(rest)));
    ReduceNamesState(Top(st), Sym(Head(rest)));
    ReducedMatches(st, rule);
  }

  lemma {:induction false} Reading(c: Cst, st: Stack, rest: seq<Token>, res: Option<Expr>, limit: nat)
    requires CanRead(c, st, rest)
    ensures Run(Config(st, Yield(c, rest), res), limit) == Continued(c, st, rest, res, limit)
    decreases c
  {
    match c {
      case CVar =>
        ShiftStep(st, VarN, rest, res, limit);
        if Size(st) + 1 < limit {
          ReduceStep(Push(st, 3, Tok(VarN)), 10, rest, res, limit);
        }
      case CNum(n) =>
        ShiftStep(st, Number(n), rest, res, limit);
        if Size(st) + 1 < limit {
          ReduceStep(Push(st, 2, Tok(Number(n))), 11, rest, res, limit);
        }
      case CNot(_) => ReadingNot(c, st, rest, res, limit);
      case CInfix(_, _, _) => ReadingInfix(c, st, rest, res, limit);
      case CCond(_, _, _) => ReadingCond(c, st, rest, res, limit);
      case CParen(_) => ReadingParen(c, st, rest, res, limit);
    }
  }

  lemma {:induction false} ReadingNot(c: Cst, st: Stack, rest: seq<Token>, res: Option<Expr>, limit: nat)
    requires CanRead(c, st, rest) && c.CNot?
    ensures Run(Config(st, Yield(c, rest), res), limit) == Continued(c, st, rest, res, limit)
    decreases c, 0
  {
    hide Run;
    ShiftStep(st, Bang, Yield(c.arg, rest), res, limit);
    var st1 := Push(st, 1, Tok(Bang));
    Reading(c.arg, st1, rest, res, limit);
    if Size(st) + Need(c) < limit {
      ReduceStep(Push(st1, 6, Exp(Tree(c.arg))), 9, rest, res, limit);
    }
  }

  lemma {:induction false} ReadingParen(c: Cst, st: Stack, rest: seq<Token>, res: Option<Expr>, limit: nat)
    requires CanRead(c, st, rest) && c.CParen?
    ensures Run(Config(st, Yield(c, rest), res), limit) == Continued(c, st, rest, res, limit)
    decreases c, 0
  {
    hide Run;
    ShiftStep(st, LParen, Yield(c.inner, [RParen] + rest), res, limit);
    var st1 := Push(st, 4, Tok(LParen));
    Reading(c.inner, st1, [RParen] + rest, res, limit);
    if Size(st1) + Need(c.inner) < limit {
      var st2 := Push(st1, 7, Exp(Tree(c.inner)));
      ShiftStep(st2, RParen, rest, res, limit);
      if Size(st) + 3 < limit {
        ReduceStep(Push(st2, 15, Tok(RParen)), 12, rest, res, limit);
      }
    }
  }

  /** The stack `st exp op`. */
  function WithInfix(st: Stack, left: Expr, op: Token): (r: Stack)
    ensures Size(r) == Size(st) + 2
  {
    Push(Push(st, GotoExp(Top(st)), Exp(left)), Sym(op) + 5, Tok(op))
  }

  /** An infix operator of sufficient precedence is shifted on a complete left operand. */
  lemma ShiftInfix(st: Stack, left: Expr, op: Token, rest: seq<Token>, res: Option<Expr>, limit: nat)
    requires Matches(st) && StartsExp(Top(st)) && OpLevel(op) >= MinLevel(Top(st)) && OpLevel(op) >= 0
    ensures Matches(WithInfix(st, left, op))
    ensures StartsExp(Sym(op) + 5)
    ensures MinLevel(Sym(op) + 5) == if op == Question then 0 else OpLevel(op) + 1
    ensures Matches(After(st, left, [op] + rest, res).stack)
    ensures Run(After(st, left, [op] + rest, res), limit)
         == if Size(st) + 2 >= limit then Overflowed else Run(Config(WithInfix(st, left, op), rest, res), limit)
  {
    var st1 := After(st, left, [op] + rest, res).stack;
    assert Matches(st1);
    assert Act(Top(st1), Sym(op)) == Shift(Sym(op) + 5);
    ShiftStep(st1, op, rest, res, limit);
  }

  lemma ReduceInfix(st: Stack, left: Expr, op: Token, right: Expr, rest: seq<Token>, res: Option<Expr>, limit: nat)
    requires Matches(WithInfix(st, left, op)) && StartsExp(Top(st)) && IsBinary(op)
    requires OpLevel(Head(rest)) <= OpLevel(op) && Size(st) + 3 < limit
    ensures Matches(Push(WithInfix(st, left, op), Sym(op) + 13, Exp(right))) && Matches(After(st, Var, rest, res).stack)
    ensures Run(Config(Push(WithInfix(st, left, op), Sym(op) + 13, Exp(right)), rest, res), limit)
         == Run(After(st, Bin(OperatorOf(op), left, right), rest, res), limit)
  {
    var st2 := WithInfix(st, left, op);
    var st3 := Push(st2, Sym(op) + 13, Exp(right));
    assert Matches(st3) && Size(st3) == Size(st) + 3;
    assert Act(Top(st3), Sym(Head(rest))) == Reduce(Sym(op) - 1);
    ReduceStep(st3, Sym(op) - 1, rest, res, limit);
    assert Reduced(st3, Sym(op) - 1) == After(st, Bin(OperatorOf(op), left, right), rest, res).stack;
  }

  /** The stack `st exp ? exp :`. */
  function WithColon(st: Stack, b: Expr, t: Expr): (r: Stack)
    ensures Size(r) == Size(st) + 4
  {
    Push(Push(WithInfix(st, b, Question), 16, Exp(t)), 23, Tok(Colon))
  }

  lemma ShiftColon(st: Stack, b: Expr, t: Expr, rest: seq<Token>, res: Option<Expr>, limit: nat)
    requires Matches(WithInfix(st, b, Question))
    ensures Matches(WithColon(st, b, t))
    ensures Matches(After(WithInfix(st, b, Question), t, [Colon] + rest, res).stack)
    ensures Run(After(WithInfix(st, b, Question), t, [Colon] + rest, res), limit)
         == if Size(st) + 4 >= limit then Overflowed else Run(Config(WithColon(st, b, t), rest, res), limit)
  {
    var st3 := After(WithInfix(st, b, Question), t, [Colon] + rest, res).stack;
    assert Matches(st3) && Size(st3) == Size(st) + 3;
    ShiftStep(st3, Colon, rest, res, limit);
  }

  lemma ReduceCond(st: Stack, b: Expr, t: Expr, f: Expr, rest: seq<Token>, res: Option<Expr>, limit: nat)
    requires Matches(WithColon(st, b, t)) && StartsExp(Top(st))
    requires OpLevel(Head(rest)) < 0 && Size(st) + 5 < limit
    ensures Matches(Push(WithColon(st, b, t), 24, Exp(f))) && Matches(After(st, Var, rest, res).stack)
    ensures Run(Config(Push(WithColon(st, b, t), 24, Exp(f)), rest, res), limit)
         == Run(After(st, Qmop(b, t, f), rest, res), limit)
  {
    var st5 := Push(WithColon(st, b, t), 24, Exp(f));
    assert Matches(st5) && Size(st5) == Size(st) + 5;
    ReduceStep(st5, 2, rest, res, limit);
    assert Reduced(st5, 2) == After(st, Qmop(b, t, f), rest, res).stack;
  }

  lemma {:induction false} ReadingInfix(c: Cst, st: Stack, rest: seq<Token>, res: Option<Expr>, limit: nat)
    requires CanRead(c, st, rest) && c.CInfix?
    ensures Run(Config(st, Yield(c, rest), res), limit) == Continued(c, st, rest, res, limit)
    decreases c, 0
  {
    hide Run, Matches, Access;
    Reading(c.left, st, [c.op] + Yield(c.right, rest), res, limit);
    if Size(st) + Need(c.left) < limit {
      ShiftInfix(st, Tree(c.left), c.op, Yield(c.right, rest), res, limit);
      var st2 := WithInfix(st, Tree(c.left), c.op);
      Reading(c.right, st2, rest, res, limit);
      if Size(st) + Need(c) < limit {
        NeedPositive(c.right);
        ReduceInfix(st, Tree(c.left), c.op, Tree(c.right), rest, res, limit);
      }
    }
  }

  lemma NeedPositive(c: Cst)
    ensures Need(c) >= 1
  {
  }

  /** From the `:` onwards: the last branch and the reduction. */
  lemma {:induction false} ReadingElse(c: Cst, st: Stack, rest: seq<Token>, res: Option<Expr>, limit: nat)
    requires CanRead(c, st, rest) && c.CCond? && Matches(WithColon(st, Tree(c.bexp), Tree(c.tbranch)))
    ensures Run(Config(WithColon(st, Tree(c.bexp), Tree(c.tbranch)), Yield(c.fbranch, rest), res), limit)
         == if Size(st) + 4 + Need(c.fbranch) >= limit then Overflowed else Run(After(st, Tree(c), rest, res), limit)
    decreases c, 0
  {
    NeedPositive(c.fbranch);
    Reading(c.fbranch, WithColon(st, Tree(c.bexp), Tree(c.tbranch)), rest, res, limit);
    if Size(st) + 4 + Need(c.fbranch) < limit {
      ReduceCond(st, Tree(c.bexp), Tree(c.tbranch), Tree(c.fbranch), rest, res, limit);
    }
  }

  /** From the `?` onwards: both branches and the reduction. */
  lemma {:induction false} ReadingThen(c: Cst, st: Stack, rest: seq<Token>, res: Option<Expr>, limit: nat)
    requires CanRead(c, st, rest) && c.CCond? && Matches(WithInfix(st, Tree(c.bexp), Question))
    ensures Run(Config(WithInfix(st, Tree(c.bexp), Question), Yield(c.tbranch, [Colon] + Yield(c.fbranch, rest)), res),
                limit)
         == if Size(st) + Max(2 + Need(c.tbranch), 4 + Need(c.fbranch)) >= limit then Overflowed
            else Run(After(st, Tree(c), rest, res), limit)
    decreases c, 1
  {
    hide Run, Matches, Access;
    var b, t := Tree(c.bexp), Tree(c.tbranch);
    NeedPositive(c.fbranch);
    Reading(c.tbranch, WithInfix(st, b, Question), [Colon] + Yield(c.fbranch, rest), res, limit);
    if Size(st) + 2 + Need(c.tbranch) < limit {
      ShiftColon(st, b, t, Yield(c.fbranch, rest), res, limit);
      ReadingElse(c, st, rest, res, limit);
    }
  }

  lemma CondParts(c: Cst, st: Stack, rest: seq<Token>)
    requires CanRead(c, st, rest) && c.CCond?
    ensures var branches := Yield(c.tbranch, [Colon] + Yield(c.fbranch, rest));
      Yield(c, rest) == Yield(c.bexp, [Question] + branches) && CanRead(c.bexp, st, [Question] + branches)
    ensures Matches(st) && StartsExp(Top(st)) && Obeys(c) && Obeys(c.bexp)
    ensures OpLevel(Question) >= MinLevel(Top(st)) && OpLevel(Question) >= 0
  {
    hide Matches, Access, Yield, Need, Size;
    CondYield(c, rest);
  }

  lemma CondNeeds(c: Cst)
    requires c.CCond?
    ensures Need(c) == Max(Need(c.bexp), Max(2 + Need(c.tbranch), 4 + Need(c.fbranch)))
    ensures Need(c) >= Need(c.bexp) && Need(c) >= 3 && Need(c) >= Max(2 + Need(c.tbranch), 4 + Need(c.fbranch))
    ensures Need(c) == Need(c.bexp) || Need(c) == Max(2 + Need(c.tbranch), 4 + Need(c.fbranch))
    ensures Max(2 + Need(c.tbranch), 4 + Need(c.fbranch)) >= 3
  {
    NeedPositive(c.tbranch);
  }

  lemma CondYield(c: Cst, rest: seq<Token>)
    requires c.CCond?
    ensures Yield(c, rest) == Yield(c.bexp, [Question] + Yield(c.tbranch, [Colon] + Yield(c.fbranch, rest)))
  {
  }

  lemma {:induction false} ReadingCond(c: Cst, st: Stack, rest: seq<Token>, res: Option<Expr>, limit: nat)
    requires CanRead(c, st, rest) && c.CCond?
    ensures Run(Config(st, Yield(c, rest), res), limit) == Continued(c, st, rest, res, limit)
    decreases c, 2
  {
    hide Run, Matches, Access, CanRead, Yield, Size, Max;
    CondParts(c, st, rest);
    CondNeeds(c);
    var branches := Yield(c.tbranch, [Colon] + Yield(c.fbranch, rest));
    Reading(c.bexp, st, [Question] + branches, res, limit);
    if Size(st) + Need(c.bexp) < limit {
      ShiftInfix(st, Tree(c.bexp), Question, branches, res, limit);
      if Size(st) + 2 < limit {
        ReadingThen(c, st, rest, res, limit);
      }
    }
  }

  // ----- only readings are accepted -----

  /** What the stack has been built from: shifted tokens and the texts of reduced expressions. */
  datatype Trace = TBase | TTok(below: Trace, tok: Token) | TExp(below: Trace, text: Cst)

  /** The input as it was before the traced symbols were read. */
  function Unread(tr: Trace, rest: seq<Token>): seq<Token> {
    match tr
    case TBase => rest
    case TTok(b, t) => Unread(b, [t] + rest)
    case TExp(b, c) => Unread(b, Yield(c, rest))
  }

  /** `op` stands where precedence lets it stand: after a complete operand that may be extended by it. */
  predicate OperatorFits(below: Stack, tr: Trace, op: Token) {
    OpLevel(op) >= 0 ==>
      below.Push? && tr.TExp? && Ends(tr.text, op) && MinLevel(Top(below.below)) <= OpLevel(op)
  }

  /** The values on the stack are the trees of precedence-obeying texts. */
  predicate Tracks(st: Stack, tr: Trace) {
    match st
    case Base => tr.TBase?
    case Push(b, _, Tok(t)) => tr.TTok? && tr.tok == t && Tracks(b, tr.below) && OperatorFits(b, tr.below, t)
    case Push(b, _, Exp(e)) =>
      && tr.TExp? && Tracks(b, tr.below)
      && Obeys(tr.text) && Tree(tr.text) == e && Prec(tr.text) >= MinLevel(Top(b))
  }

  /** The invariant of the driver: stacked symbols and unread tokens together spell the input. */
  predicate Explains(c: Config, tr: Trace, tokens: seq<Token>) {
    && Matches(c.stack) && Tracks(c.stack, tr)
    && Unread(tr, c.rest) == tokens
    && (tr.TExp? ==> Ends(tr.text, Head(c.rest)))
    && Top(c.stack) < 25
    && c.res == None
  }

  lemma OneTracked(st: Stack, tr: Trace)
    requires Tracks(st, tr) && st.Push?
    ensures !tr.TBase? && Tracks(st.below, tr.below)
    ensures st.cell.Exp? ==> tr.TExp?
    ensures st.cell.Tok? ==> tr.TTok? && tr.tok == st.cell.tok
  {
  }

  /** The trace mirrors the right-hand side found on the stack. */
  predicate Mirrors(tr: Trace, rule: int) {
    if rule == 2 then
      && tr.TExp? && tr.below.TTok? && tr.below.tok == Colon
      && tr.below.below.TExp?
      && tr.below.below.below.TTok? && tr.below.below.below.tok == Question
      && tr.below.below.below.below.TExp?
    else if rule == 9 then tr.TExp? && tr.below.TTok? && tr.below.tok == Bang
    else if rule == 10 then tr.TTok? && tr.tok == VarN
    else if rule == 11 then tr.TTok? && tr.tok.Number?
    else if rule == 12 then
      && tr.TTok? && tr.tok == RParen
      && tr.below.TExp?
      && tr.below.below.TTok? && tr.below.below.tok == LParen
    else
      tr.TExp? && tr.below.TTok? && IsBinary(tr.below.tok) && tr.below.below.TExp?
  }

  lemma HandleMirrored(st: Stack, tr: Trace, rule: int)
    requires 2 <= rule <= 12 && HandleOnTop(st, rule) && Tracks(st, tr)
    ensures Mirrors(tr, rule)
    ensures Tracks(Popped(st, rule), PoppedTrace(tr, rule))
  {
    OneTracked(st, tr);
    if Handle(rule) > 1 {
      OneTracked(st.below, tr.below);
    }
    if Handle(rule) > 2 {
      OneTracked(st.below.below, tr.below.below);
    }
    if Handle(rule) > 3 {
      OneTracked(st.below.below.below, tr.below.below.below);
      OneTracked(st.below.below.below.below, tr.below.below.below.below);
    }
  }

  /** The text that a reduction adds to the trace. */
  function ReducedText(tr: Trace, rule: int): Cst
    requires 2 <= rule <= 12 && Mirrors(tr, rule)
  {
    match rule
    case 2 => CCond(tr.below.below.below.below.text, tr.below.below.text, tr.text)
    case 9 => CNot(tr.text)
    case 10 => CVar
    case 11 => CNum(tr.tok.num)
    case 12 => CParen(tr.below.text)
    case _ => CInfix(tr.below.tok, tr.below.below.text, tr.text)
  }

  function PoppedTrace(tr: Trace, rule: int): Trace
    requires 2 <= rule <= 12 && Mirrors(tr, rule)
  {
    match rule
    case 2 => tr.below.below.below.below.below
    case 9 => tr.below.below
    case 10 => tr.below
    case 11 => tr.below
    case _ => tr.below.below.below
  }

  lemma ReducedTextObeys(st: Stack, tr: Trace, rule: int, next: Token)
    requires 2 <= rule <= 12 && Matches(st) && HandleOnTop(st, rule) && Tracks(st, tr) && Mirrors(tr, rule)
    requires Act(Top(st), Sym(next)) == Reduce(rule) && Top(st) == ReducingState(rule)
    ensures Obeys(ReducedText(tr, rule)) && Tree(ReducedText(tr, rule)) == Build(st, rule)
    ensures Ends(ReducedText(tr, rule), next)
    ensures Prec(ReducedText(tr, rule)) >= MinLevel(Top(Popped(st, rule)))
  {
    ReducedBefore(rule, next);
    hide Act, Sym, Matches, Obeys, Tree, Build, ReducedText, Tracks;
    if rule == 2 {
      CondTextObeys(st, tr);
    } else if rule <= 8 {
      InfixTextObeys(st, tr, rule);
    } else {
      SmallTextObeys(st, tr, rule);
    }
  }

  lemma SmallTextObeys(st: Stack, tr: Trace, rule: int)
    requires 9 <= rule <= 12 && Matches(st) && HandleOnTop(st, rule) && Tracks(st, tr) && Mirrors(tr, rule)
    requires Top(st) == ReducingState(rule)
    ensures Obeys(ReducedText(tr, rule)) && Tree(ReducedText(tr, rule)) == Build(st, rule)
    ensures Prec(ReducedText(tr, rule)) >= 7 >= MinLevel(Top(Popped(st, rule)))
  {
  }

  /** The tokens before which a rule is reduced. */
  lemma ReducedBefore(rule: int, next: Token)
    requires 2 <= rule <= 12 && Act(ReducingState(rule), Sym(next)) == Reduce(rule)
    ensures rule == 2 ==> OpLevel(next) < 0
    ensures 3 <= rule <= 8 ==> OpLevel(next) <= rule - 2
    ensures OpLevel(next) <= 7
  {
  }

  lemma CondTextObeys(st: Stack, tr: Trace)
    requires Matches(st) && CondHandle(st) && Tracks(st, tr) && Mirrors(tr, 2)
    ensures Obeys(ReducedText(tr, 2)) && Tree(ReducedText(tr, 2)) == Build(st, 2) && Prec(ReducedText(tr, 2)) == 0
    ensures MinLevel(Top(Popped(st, 2))) <= 0
  {
    OneTracked(st, tr);
    OneTracked(st.below, tr.below);
    OneTracked(st.below.below, tr.below.below);
    OneTracked(st.below.below.below, tr.below.below.below);
  }

  lemma InfixTextObeys(st: Stack, tr: Trace, rule: int)
    requires Matches(st) && 3 <= rule <= 8 && HandleOnTop(st, rule) && Top(st) == rule + 14
    requires Tracks(st, tr) && Mirrors(tr, rule)
    ensures Obeys(ReducedText(tr, rule)) && Tree(ReducedText(tr, rule)) == Build(st, rule)
    ensures Prec(ReducedText(tr, rule)) == rule - 2 >= MinLevel(Top(Popped(st, rule)))
  {
    OneTracked(st, tr);
    OneTracked(st.below, tr.below);
    BelowExp(st);
  }

  lemma UnreadReduced(tr: Trace, rule: int, rest: seq<Token>)
    requires 2 <= rule <= 12 && Mirrors(tr, rule)
    ensures Unread(TExp(PoppedTrace(tr, rule), ReducedText(tr, rule)), rest) == Unread(tr, rest)
  {
    match rule {
      case 2 =>
        var tail := [Colon] + Yield(tr.text, rest);
        var tail' := [Question] + Yield(tr.below.below.text, tail);
        assert Unread(tr, rest) == Unread(tr.below.below, tail);
        assert Unread(tr.below.below, tail) == Unread(tr.below.below.below.below, tail');
      case 9 => case 10 => case 11 =>
      case 12 =>
        var tail := [RParen] + rest;
        assert Unread(tr, rest) == Unread(tr.below.below, Yield(tr.below.text, tail));
      case _ => assert Unread(tr, rest) == Unread(tr.below.below, [tr.below.tok] + Yield(tr.text, rest));
    }
  }

  /** A shift keeps the invariant. */
  lemma ShiftExplains(c: Config, tr: Trace, tokens: seq<Token>, limit: nat)
    requires Explains(c, tr, tokens) && c.rest != [] && Step(c, limit).Next?
    requires Act(Top(c.stack), Sym(Head(c.rest))).Shift?
    ensures Explains(Step(c, limit).config, TTok(tr, c.rest[0]), tokens)
  {
    var op := c.rest[0];
    StepKeepsInvariant(c, limit);
    assert [op] + c.rest[1..] == c.rest;
    if OpLevel(op) >= 0 {
      assert c.stack.Push? && Access(Top(c.stack)) == 17;
      BelowExp(c.stack);
    }
  }

  /** So does every reduction but the one to the start symbol. */
  lemma ReduceExplains(c: Config, tr: Trace, tokens: seq<Token>, limit: nat) returns (tr': Trace)
    requires Explains(c, tr, tokens) && Step(c, limit).Next?
    requires Act(Top(c.stack), Sym(Head(c.rest))).Reduce? && Top(c.stack) != 5
    ensures Explains(Step(c, limit).config, tr', tokens)
  {
    var next := Head(c.rest);
    var rule := Act(Top(c.stack), Sym(next)).rule;
    ReduceNamesState(Top(c.stack), Sym(next));
    ReduceFindsHandle(c.stack, Sym(next));
    HandleMirrored(c.stack, tr, rule);
    ReducedTextObeys(c.stack, tr, rule, next);
    StepKeepsInvariant(c, limit);
    tr' := TExp(PoppedTrace(tr, rule), ReducedText(tr, rule));
    UnreadReduced(tr, rule, c.rest);
  }

  /** From the start symbol the driver can only accept, and only at the end of the input. */
  lemma Finish(e: Expr, rest: seq<Token>, limit: nat)
    requires 3 < limit && End !in rest
    ensures Matches(Push(Base, 25, Exp(e)))
    ensures Run(Config(Push(Base, 25, Exp(e)), rest, Some(e)), limit) == if rest == [] then Accepted(e) else Aborted
  {
    var c := Config(Push(Base, 25, Exp(e)), rest, Some(e));
    assert Top(Base) == 0 && Matches(Base);
    assert Size(c.stack) == 2 && Matches(c.stack);
    if rest == [] {
      var c' := Config(Push(c.stack, 26, Tok(End)), [], Some(e));
      assert Edge(25, 26) && Size(c'.stack) == 3;
      assert Matches(c'.stack);
      assert Step(c, limit) == Next(c');
      assert Step(c', limit) == Halt(Accepted(e));
    } else {
      assert rest[0] in rest;
      assert Step(c, limit) == Halt(Aborted);
    }
  }

  /** Whatever the driver accepts is a reading of the whole input, and the tree it returns is that reading's. */
  lemma {:induction false} AcceptedIsRead(c: Config, tr: Trace, tokens: seq<Token>, limit: nat)
    returns (text: Cst)
    requires Explains(c, tr, tokens) && 3 < limit && End !in tokens && End !in c.rest
    requires Run(c, limit).Accepted?
    ensures Reads(text, tokens) && Tree(text) == Run(c, limit).exp
    decreases Measure(c)
  {
    var action := Act(Top(c.stack), Sym(Head(c.rest)));
    StepKeepsInvariant(c, limit);
    var c' := Step(c, limit).config;
    if action.Shift? {
      assert c.rest != [];
      ShiftExplains(c, tr, tokens, limit);
      text := AcceptedIsRead(c', TTok(tr, c.rest[0]), tokens, limit);
    } else if Top(c.stack) == 5 {
      ReduceFindsHandle(c.stack, Sym(Head(c.rest)));
      assert c' == Config(Push(Base, 25, c.stack.cell), c.rest, Some(c.stack.cell.exp));
      Finish(c.stack.cell.exp, c.rest, limit);
      text := tr.text;
      OneTracked(c.stack, tr);
      assert tr.below == TBase && c.rest == [];
      assert Unread(tr, c.rest) == Yield(text, []);
    } else {
      var tr' := ReduceExplains(c, tr, tokens, limit);
      text := AcceptedIsRead(c', tr', tokens, limit);
    }
  }

  // ----- main results -----

  lemma NoEndInside(c: Cst, rest: seq<Token>)
    requires Obeys(c)
    ensures End in Yield(c, rest) ==> End in rest
  {
    match c {
      case CVar => case CNum(_) =>
      case CNot(a) => NoEndInside(a, rest);
      case CParen(a) => NoEndInside(a, [RParen] + rest);
      case CInfix(op, l, r) =>
        NoEndInside(r, rest);
        NoEndInside(l, [op] + Yield(r, rest));
      case CCond(b, t, f) =>
        NoEndInside(f, rest);
        NoEndInside(t, [Colon] + Yield(f, rest));
        NoEndInside(b, [Question] + Yield(t, [Colon] + Yield(f, rest)));
    }
  }

  /** Completeness: a readable input is never rejected, and the only obstacle is the stack limit. */
  lemma ReadableIsParsed(c: Cst, tokens: seq<Token>, limit: nat)
    requires Reads(c, tokens) && 3 < limit
    ensures Parse(tokens, limit) == if 1 + Need(c) >= limit then Overflowed else Accepted(Tree(c))
  {
    assert Matches(Base) && Top(Base) == 0;
    Reading(c, Base, [], None, limit);
    if 1 + Need(c) < limit {
      var c5 := After(Base, Tree(c), [], None);
      assert Matches(c5.stack) && Size(c5.stack) == 2;
      assert HandleOnTop(c5.stack, 1);
      Finish(Tree(c), [], limit);
      assert Step(c5, limit) == Next(Config(Push(Base, 25, Exp(Tree(c))), [], Some(Tree(c))));
    }
  }

  /** Soundness: an accepted input is readable, and the tree returned is the one it spells. */
  lemma ParsedIsReadable(tokens: seq<Token>, limit: nat) returns (text: Cst)
    requires End !in tokens && 3 < limit && Parse(tokens, limit).Accepted?
    ensures Reads(text, tokens) && Tree(text) == Parse(tokens, limit).exp
  {
    text := AcceptedIsRead(Config(Base, tokens, None), TBase, tokens, limit);
  }

  /** The driver accepts exactly the readable inputs that fit its stack, with exactly the tree they spell. */
  lemma ParserMeetsGrammar(tokens: seq<Token>, e: Expr, limit: nat)
    requires End !in tokens && 3 < limit
    ensures Parse(tokens, limit) == Accepted(e)
       <==> exists c :: Reads(c, tokens) && Tree(c) == e && 1 + Need(c) < limit
  {
    if Parse(tokens, limit) == Accepted(e) {
      var c := ParsedIsReadable(tokens, limit);
      ReadableIsParsed(c, tokens, limit);
    }
    if c :| Reads(c, tokens) && Tree(c) == e && 1 + Need(c) < limit {
      ReadableIsParsed(c, tokens, limit);
    }
  }

  /** The precedence grammar is unambiguous: all readings of an input mean the same tree. */
  lemma ReadingsAgree(c1: Cst, c2: Cst, tokens: seq<Token>)
    requires Reads(c1, tokens) && Reads(c2, tokens)
    ensures Tree(c1) == Tree(c2)
  {
    var limit := 4 + Need(c1) + Need(c2);
    ReadableIsParsed(c1, tokens, limit);
    ReadableIsParsed(c2, tokens, limit);
  }
}
