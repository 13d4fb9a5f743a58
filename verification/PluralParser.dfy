/** The shift/reduce driver of intl/plural.c as a transition system, and its termination. */
module PluralParser {
  import opened PluralSyntax
  import opened PluralTables
  import opened Wrappers

  /** A stacked semantic value: the token that was shifted or the expression that was reduced. */
  datatype Cell = Tok(tok: Token) | Exp(exp: Expr)

  /** State stack and value stack, top first; `Base` is the bare initial state 0. */
  datatype Stack = Base | Push(below: Stack, state: int, cell: Cell)

  /** `rest` starts with the lookahead, whether or not the driver has fetched it yet. */
  datatype Config = Config(stack: Stack, rest: seq<Token>, res: Option<Expr>)

  datatype Outcome = Accepted(exp: Expr) | Aborted | Overflowed

  function Top(st: Stack): int {
    if st.Base? then 0 else st.state
  }

  /** Number of states on the stack. */
  function Size(st: Stack): nat {
    if st.Base? then 1 else 1 + Size(st.below)
  }

  function Head(rest: seq<Token>): Token {
    if rest == [] then End else rest[0]
  }

  function Tail(rest: seq<Token>): seq<Token> {
    if rest == [] then [] else rest[1..]
  }

  /** The symbol that leads into a state; 17 is the nonterminal `exp`, 16 is `start`. */
  function Access(s: int): int {
    if s == 1 then 10 else if s == 2 then 11 else if s == 3 then 13 else if s == 4 then 14
    else if 8 <= s <= 14 then s - 5 else if s == 15 then 15 else if s == 23 then 12 else if s == 26 then 0
    else if s == 25 then 16 else 17
  }

  /** Whether state `s` may lie directly above state `p`. */
  predicate Edge(p: int, s: int) {
    if Access(s) == 17 then StartsExp(p) && s == GotoExp(p)
    else if Access(s) == 16 then p == 0
    else Act(p, Access(s)) == Shift(s)
  }

  predicate Fits(s: int, cell: Cell) {
    match cell
    case Tok(t) => Access(s) == Sym(t)
    case Exp(_) => Access(s) >= 16
  }

  /** Every state on the stack is a legal successor of the one below and matches its symbol. */
  predicate Matches(st: Stack) {
    st.Push? ==>
      && Matches(st.below)
      && 0 < st.state < YYFINAL
      && Edge(Top(st.below), st.state)
      && Fits(st.state, st.cell)
  }

  /** Number of stack entries a rule pops. */
  function Handle(rule: int): nat {
    if rule == 2 then 5 else if 3 <= rule <= 8 || rule == 12 then 3 else if rule == 9 then 2 else 1
  }

  predicate UnaryHandle(st: Stack) {
    && st.Push? && st.cell.Exp?
    && st.below.Push? && st.below.cell == Tok(Bang)
    && StartsExp(Top(st.below.below))
  }

  predicate ParenHandle(st: Stack) {
    && st.Push? && st.cell == Tok(RParen)
    && st.below.Push? && st.below.cell.Exp?
    && st.below.below.Push? && st.below.below.cell == Tok(LParen)
    && StartsExp(Top(st.below.below.below))
  }

  predicate BinaryHandle(st: Stack) {
    && st.Push? && st.cell.Exp?
    && st.below.Push? && st.below.cell.Tok? && IsBinary(st.below.cell.tok)
    && st.below.below.Push? && st.below.below.cell.Exp?
    && StartsExp(Top(st.below.below.below))
  }

  predicate CondHandle(st: Stack) {
    && st.Push? && st.cell.Exp?
    && st.below.Push? && st.below.cell == Tok(Colon)
    && st.below.below.Push? && st.below.below.cell.Exp?
    && st.below.below.below.Push? && st.below.below.below.cell == Tok(Question)
    && st.below.below.below.below.Push? && st.below.below.below.below.cell.Exp?
    && StartsExp(Top(st.below.below.below.below.below))
  }

  /** The shape of the stack that a reduction finds in every well-matched configuration. */
  predicate HandleOnTop(st: Stack, rule: int) {
    if rule == 1 then st.Push? && st.cell.Exp? && st.below.Base?
    else if rule == 2 then CondHandle(st)
    else if rule == 9 then UnaryHandle(st)
    else if rule == 10 then st.Push? && st.cell == Tok(VarN) && StartsExp(Top(st.below))
    else if rule == 11 then st.Push? && st.cell.Tok? && st.cell.tok.Number? && StartsExp(Top(st.below))
    else if rule == 12 then ParenHandle(st)
    else BinaryHandle(st) && Sym(st.below.cell.tok) == rule + 1
  }

  /** The only state that reduces by a given rule. */
  function ReducingState(rule: int): int {
    if rule == 1 then 5 else if rule == 2 then 24 else if rule == 9 then 6 else if rule == 10 then 3
    else if rule == 11 then 2 else if rule == 12 then 15 else rule + 14
  }

  lemma ReduceNamesState(s: int, sym: int)
    requires 0 <= s < YYFINAL && Act(s, sym).Reduce?
    ensures 1 <= Act(s, sym).rule <= 12 && s == ReducingState(Act(s, sym).rule)
  {
  }

  /** What lies below the three kinds of state. */
  lemma BelowExp(st: Stack)
    requires Matches(st) && st.Push? && Access(st.state) == 17
    ensures st.cell.Exp? && StartsExp(Top(st.below)) && st.state == GotoExp(Top(st.below))
  {
  }

  lemma BelowInfix(st: Stack)
    requires Matches(st) && st.Push? && (8 <= st.state <= 14 || st.state == 23 || st.state == 15)
    ensures st.cell.Tok? && Sym(st.cell.tok) == Access(st.state)
    ensures st.below.Push? && Access(st.below.state) == 17
    ensures st.state == 15 ==> st.below.state == 7
    ensures st.state == 23 ==> st.below.state == 16
  {
  }

  lemma BelowPrefix(st: Stack)
    requires Matches(st) && st.Push? && 1 <= st.state <= 4
    ensures st.cell.Tok? && Sym(st.cell.tok) == Access(st.state) && StartsExp(Top(st.below))
  {
  }

  lemma BinaryHandleFound(st: Stack)
    requires Matches(st) && st.Push? && 17 <= st.state <= 22
    ensures BinaryHandle(st) && Sym(st.below.cell.tok) == st.state - 13
  {
    BelowExp(st);
    BelowInfix(st.below);
    BelowExp(st.below.below);
  }

  lemma CondHandleFound(st: Stack)
    requires Matches(st) && st.Push? && st.state == 24
    ensures CondHandle(st)
  {
    BelowExp(st);
    BelowInfix(st.below);
    BelowExp(st.below.below);
    BelowInfix(st.below.below.below);
    BelowExp(st.below.below.below.below);
  }

  lemma OtherHandleFound(st: Stack)
    requires Matches(st) && st.Push? && (st.state == 5 || st.state == 6 || st.state == 2 || st.state == 3)
    ensures st.state == 5 ==> HandleOnTop(st, 1)
    ensures st.state == 6 ==> HandleOnTop(st, 9)
    ensures st.state == 3 ==> HandleOnTop(st, 10)
    ensures st.state == 2 ==> HandleOnTop(st, 11)
  {
  }

  lemma ParenHandleFound(st: Stack)
    requires Matches(st) && st.Push? && st.state == 15
    ensures ParenHandle(st)
  {
    BelowInfix(st);
    BelowExp(st.below);
    BelowPrefix(st.below.below);
  }

  /** Every reduction finds its whole right-hand side on the stack: it never pops below the bottom. */
  lemma ReduceFindsHandle(st: Stack, sym: int)
    requires Matches(st) && Act(Top(st), sym).Reduce?
    ensures 1 <= Act(Top(st), sym).rule <= 12
    ensures HandleOnTop(st, Act(Top(st), sym).rule)
  {
    var rule := Act(Top(st), sym).rule;
    ReduceNamesState(Top(st), sym);
    if rule == 2 {
      CondHandleFound(st);
    } else if rule == 12 {
      ParenHandleFound(st);
    } else if 3 <= rule <= 8 {
      BinaryHandleFound(st);
    } else {
      OtherHandleFound(st);
    }
  }

  /** The semantic action of each rule. */
  function Build(st: Stack, rule: int): Expr
    requires 1 <= rule <= 12 && HandleOnTop(st, rule)
  {
    match rule
    case 1 => st.cell.exp
    case 2 => Qmop(st.below.below.below.below.cell.exp, st.below.below.cell.exp, st.cell.exp)
    case 9 => Lnot(st.cell.exp)
    case 10 => Var
    case 11 => Num(st.cell.tok.num)
    case 12 => st.below.cell.exp
    case _ => Bin(OperatorOf(st.below.cell.tok), st.below.below.cell.exp, st.cell.exp)
  }

  /** The stack after popping the right-hand side of `rule`. */
  function Popped(st: Stack, rule: int): Stack
    requires 1 <= rule <= 12 && HandleOnTop(st, rule)
  {
    match rule
    case 2 => st.below.below.below.below.below
    case 9 => st.below.below
    case 1 => st.below
    case 10 => st.below
    case 11 => st.below
    case _ => st.below.below.below
  }

  /** The stack after reducing by `rule`. */
  function Reduced(st: Stack, rule: int): Stack
    requires 1 <= rule <= 12 && HandleOnTop(st, rule)
  {
    var base := Popped(st, rule);
    Push(base, if rule == 1 then 25 else GotoExp(Top(base)), Exp(Build(st, rule)))
  }

  lemma OneBelow(st: Stack)
    requires Matches(st) && st.Push?
    ensures Matches(st.below) && Size(st) == Size(st.below) + 1
    ensures st.state != 25 ==> Weight(st.below) + (if st.cell.Exp? then 1 else 2) == Weight(st)
  {
  }

  lemma PoppedShrinks(st: Stack, rule: int)
    requires 1 <= rule <= 12 && Matches(st) && HandleOnTop(st, rule) && Top(st) == ReducingState(rule)
    ensures Matches(Popped(st, rule))
    ensures Size(Popped(st, rule)) + Handle(rule) == Size(st)
    ensures rule != 1 ==> Weight(Popped(st, rule)) + 2 <= Weight(st)
    ensures rule == 1 ==> Weight(Popped(st, rule)) + 1 <= Weight(st)
    ensures if rule == 1 then Popped(st, rule).Base? else StartsExp(Top(Popped(st, rule)))
  {
    OneBelow(st);
    if Handle(rule) > 1 {
      OneBelow(st.below);
    }
    if Handle(rule) > 2 {
      OneBelow(st.below.below);
    }
    if Handle(rule) > 3 {
      OneBelow(st.below.below.below);
      OneBelow(st.below.below.below.below);
    }
  }

  lemma ReducedMatches(st: Stack, rule: int)
    requires 1 <= rule <= 12 && Matches(st) && HandleOnTop(st, rule) && Top(st) == ReducingState(rule)
    ensures Matches(Reduced(st, rule))
    ensures Size(Reduced(st, rule)) + Handle(rule) == Size(st) + 1
    ensures Weight(Reduced(st, rule)) < Weight(st)
  {
    PoppedShrinks(st, rule);
  }

  /** Stacked terminals weigh 2, expressions 1, `start` nothing. */
  function Weight(st: Stack): nat {
    if st.Base? then 0
    else Weight(st.below) + (if st.state == 25 then 0 else if st.cell.Exp? then 1 else 2)
  }

  /** Falls at every shift and at every reduction. */
  function Measure(c: Config): nat {
    Weight(c.stack) + 3 * |c.rest| + (if Top(c.stack) == 26 then 0 else 3)
  }

  /** A shift and the goto that ends a reduction push one state; the limit is met as in `yynewstate`. */
  datatype StepResult = Next(config: Config) | Halt(outcome: Outcome)

  function Enter(c: Config, limit: nat): StepResult {
    if Size(c.stack) >= limit then Halt(Overflowed) else Next(c)
  }

  function ActionAt(c: Config): Action {
    Act(Top(c.stack), Sym(Head(c.rest)))
  }

  /** The configuration that a shift or a reduction produces. */
  function Moved(c: Config): Config
    requires Matches(c.stack) && (ActionAt(c).Shift? || ActionAt(c).Reduce?)
  {
    match ActionAt(c)
    case Shift(s) => Config(Push(c.stack, s, Tok(Head(c.rest))), Tail(c.rest), c.res)
    case Reduce(rule) =>
      ReduceFindsHandle(c.stack, Sym(Head(c.rest)));
      Config(Reduced(c.stack, rule), c.rest, if rule == 1 then Some(Build(c.stack, 1)) else c.res)
  }

  /** One turn of the driver. */
  function Step(c: Config, limit: nat): StepResult
    requires Matches(c.stack)
  {
    match ActionAt(c)
    case Error => Halt(Aborted)
    case Accept => if c.res == None then Halt(Aborted) else Halt(Accepted(c.res.value))
    case _ => Enter(Moved(c), limit)
  }

  /** Every turn keeps the stack well matched and lowers the measure, on every token stream. */
  lemma StepKeepsInvariant(c: Config, limit: nat)
    requires Matches(c.stack) && Step(c, limit).Next?
    ensures Matches(Step(c, limit).config.stack)
    ensures Measure(Step(c, limit).config) < Measure(c)
    ensures Size(Step(c, limit).config.stack) < limit
  {
    var sym := Sym(Head(c.rest));
    if Act(Top(c.stack), sym).Reduce? {
      ReduceFindsHandle(c.stack, sym);
      ReduceNamesState(Top(c.stack), sym);
      ReducedMatches(c.stack, Act(Top(c.stack), sym).rule);
    }
  }

  /** The driver run to its end. */
  function Run(c: Config, limit: nat): Outcome
    requires Matches(c.stack)
    decreases Measure(c)
  {
    match Step(c, limit)
    case Halt(outcome) => outcome
    case Next(c') => StepKeepsInvariant(c, limit); Run(c', limit)
  }

  /** Parsing a token sequence from the initial state, with at most `limit` - 1 states stacked. */
  function Parse(tokens: seq<Token>, limit: nat): Outcome
  {
    Run(Config(Base, tokens, None), limit)
  }
}
