/** `gettextparse__`: the table-driven driver of intl/plural.c with its two stacks and its lookahead. */
module PluralDriver {
  import opened PluralSyntax
  import opened PluralTables
  import opened PluralParser
  import opened PluralLexer
  import opened Wrappers

  const YYINITDEPTH := 200
  const YYMAXDEPTH := 10000

  /** `yychar`: nothing fetched yet, or the token fetched last. */
  datatype Lookahead = Empty | Fetched(tok: Token)

  /** The two stacks as one; element 0 of the value stack is the wasted one. */
  function StackOf(ss: seq<int>, vs: seq<Cell>): Stack
    requires |ss| == |vs| > 0
  {
    var n := |ss| - 1;
    if n == 0 then Base else Push(StackOf(ss[..n], vs[..n]), ss[n], vs[n])
  }

  predicate Stacked(ss: seq<int>, vs: seq<Cell>) {
    && |ss| == |vs| > 0 && ss[0] == 0
    && Matches(StackOf(ss, vs))
  }

  lemma StackOfSize(ss: seq<int>, vs: seq<Cell>)
    requires |ss| == |vs| > 0
    ensures Size(StackOf(ss, vs)) == |ss|
  {
  }

  lemma StackOfPush(ss: seq<int>, vs: seq<Cell>, s: int, v: Cell)
    requires |ss| == |vs| > 0
    ensures StackOf(ss + [s], vs + [v]) == Push(StackOf(ss, vs), s, v)
  {
  }

  /** The stack `k` entries further down. */
  function Below(st: Stack, k: nat): Stack {
    if k == 0 || st.Base? then st else Below(st.below, k - 1)
  }

  lemma {:induction false} StackOfBelow(ss: seq<int>, vs: seq<Cell>, k: nat)
    requires |ss| == |vs| > k
    ensures Below(StackOf(ss, vs), k) == StackOf(ss[..|ss| - k], vs[..|vs| - k])
    ensures k + 1 < |ss| ==> Below(StackOf(ss, vs), k).Push? && Below(StackOf(ss, vs), k).cell == vs[|vs| - 1 - k]
    ensures Top(Below(StackOf(ss, vs), k)) == if k + 1 == |ss| then 0 else ss[|ss| - 1 - k]
    decreases k
  {
    if k == 0 {
      assert ss[..|ss|] == ss && vs[..|vs|] == vs;
    } else {
      var n := |ss| - 1;
      StackOfBelow(ss[..n], vs[..n], k - 1);
      assert ss[..n][..n - (k - 1)] == ss[..|ss| - k];
      assert vs[..n][..n - (k - 1)] == vs[..|vs| - k];
    }
  }

  lemma BelowStep(st: Stack, k: nat)
    requires st.Push?
    ensures Below(st, k + 1) == Below(st.below, k)
    ensures k == 0 ==> Below(st, 1) == st.below
  {
  }

  lemma BelowUnfolds(st: Stack, rule: int)
    requires 1 <= rule <= 12 && HandleOnTop(st, rule)
    ensures Below(st, Handle(rule)) == Popped(st, rule)
    ensures Handle(rule) >= 2 ==> Below(st, 1) == st.below
    ensures Handle(rule) >= 3 ==> Below(st, 2) == st.below.below
    ensures Handle(rule) >= 5 ==> Below(st, 4) == st.below.below.below.below
  {
    BelowStep(st, 0);
    if Handle(rule) >= 2 {
      BelowStep(st, 1);
      BelowStep(st.below, 0);
    }
    if Handle(rule) >= 3 {
      BelowStep(st, 2);
      BelowStep(st.below, 1);
      BelowStep(st.below.below, 0);
    }
    if Handle(rule) >= 5 {
      var b := st.below.below.below;
      BelowStep(st, 4);
      BelowStep(st, 3);
      BelowStep(st.below, 3);
      BelowStep(st.below, 2);
      BelowStep(st.below.below, 2);
      BelowStep(st.below.below, 1);
      BelowStep(b, 1);
      BelowStep(b, 0);
      BelowStep(b.below, 0);
    }
  }

  lemma HandleIsR2(rule: int)
    requires 1 <= rule <= 12
    ensures Handle(rule) == YyR2(rule) && YyR1(rule) == if rule == 1 then 16 else 17
  {
  }

  /** The stack view of a reduction: what the action reads and what it leaves. */
  lemma ReductionReads(ss: seq<int>, vs: seq<Cell>, rule: int)
    requires Stacked(ss, vs) && 1 <= rule <= 12 && HandleOnTop(StackOf(ss, vs), rule)
    requires Top(StackOf(ss, vs)) == ReducingState(rule)
    ensures Handle(rule) < |ss|
    ensures forall k :: 0 <= k < Handle(rule) ==>
              Below(StackOf(ss, vs), k).Push? && Below(StackOf(ss, vs), k).cell == vs[|vs| - 1 - k]
    ensures var n := |ss| - Handle(rule);
      && StackOf(ss[..n], vs[..n]) == Popped(StackOf(ss, vs), rule)
      && ss[n - 1] == Top(Popped(StackOf(ss, vs), rule))
      && 0 <= ss[n - 1] < YYFINAL
  {
    var st := StackOf(ss, vs);
    StackOfSize(ss, vs);
    PoppedShrinks(st, rule);
    assert |ss| > Handle(rule) by { assert Size(Popped(st, rule)) >= 1; }
    forall k | 0 <= k < Handle(rule)
      ensures Below(st, k).Push? && Below(st, k).cell == vs[|vs| - 1 - k]
    {
      StackOfBelow(ss, vs, k);
    }
    StackOfBelow(ss, vs, Handle(rule));
    BelowUnfolds(st, rule);
  }

  /** The tokens that are left: the one fetched, if any, and what the scanner still holds. */
  function Remaining(yychar: Lookahead, text: string): seq<Token> {
    match yychar
    case Empty => LexAll(text)
    case Fetched(t) => if t == End then [] else [t] + LexAll(text)
  }

  /** The value of `yyparse`: 0 for success, 1 for a syntax error, 2 for an overflowing stack. */
  function Status(o: Outcome): int {
    match o
    case Accepted(_) => 0
    case Aborted => 1
    case Overflowed => 2
  }

  /** The semantic actions, reading the value stack from its top. */
  method RunAction(vs: seq<Cell>, rule: int, ghost st: Stack) returns (yyval: Expr)
    requires 1 <= rule <= 12 && HandleOnTop(st, rule)
    requires |vs| > Handle(rule)
    requires forall k :: 0 <= k < Handle(rule) ==> Below(st, k).Push? && Below(st, k).cell == vs[|vs| - 1 - k]
    ensures yyval == Build(st, rule)
  {
    BelowUnfolds(st, rule);
    var n := |vs| - 1;
    assert Below(st, 0) == st;
    match rule {
      case 1 => yyval := vs[n].exp;
      case 2 => yyval := Qmop(vs[n - 4].exp, vs[n - 2].exp, vs[n].exp);
      case 3 => yyval := Bin(Lor, vs[n - 2].exp, vs[n].exp);
      case 4 => yyval := Bin(Land, vs[n - 2].exp, vs[n].exp);
      case 5 => yyval := Bin(vs[n - 1].tok.eop, vs[n - 2].exp, vs[n].exp);
      case 6 => yyval := Bin(vs[n - 1].tok.cop, vs[n - 2].exp, vs[n].exp);
      case 7 => yyval := Bin(vs[n - 1].tok.aop, vs[n - 2].exp, vs[n].exp);
      case 8 => yyval := Bin(vs[n - 1].tok.mop, vs[n - 2].exp, vs[n].exp);
      case 9 => yyval := Lnot(vs[n].exp);
      case 10 => yyval := Var;
      case 11 => yyval := Num(vs[n].tok.num);
      case 12 => yyval := vs[n - 1].exp;
    }
  }

  /** The state that follows the nonterminal `nt` on top of `exposed`. */
  method GotoState(exposed: int, nt: int) returns (yystate: int)
    requires 0 <= exposed < YYFINAL && 16 <= nt <= 17
    ensures nt == 17 && StartsExp(exposed) ==> yystate == GotoExp(exposed)
    ensures nt == 16 ==> yystate == 25
  {
    PackedGotoIsGoto(exposed);
    yystate := YyPgoto(nt - YYNTBASE) + exposed;
    if 0 <= yystate <= YYLAST && YyCheck(yystate) == exposed {
      yystate := YyTable(yystate);
    } else {
      yystate := YyDefGoto(nt - YYNTBASE);
    }
  }

  /** `yyreduce`: run the action, pop the right-hand side and look up the state to go to. */
  method ReduceBy(ss: seq<int>, vs: seq<Cell>, yyn: int) returns (depth: nat, yyval: Expr, yystate: int)
    requires Stacked(ss, vs) && 1 <= yyn <= 12 && HandleOnTop(StackOf(ss, vs), yyn)
    requires Top(StackOf(ss, vs)) == ReducingState(yyn)
    ensures 0 < depth <= |ss| && yyval == Build(StackOf(ss, vs), yyn)
    ensures Push(StackOf(ss[..depth], vs[..depth]), yystate, Exp(yyval)) == Reduced(StackOf(ss, vs), yyn)
  {
    HandleIsR2(yyn);
    ReductionReads(ss, vs, yyn);
    yyval := RunAction(vs, yyn, StackOf(ss, vs));
    depth := |ss| - YyR2(yyn);
    yystate := GotoState(ss[depth - 1], YyR1(yyn));
    PoppedShrinks(StackOf(ss, vs), yyn);
  }

  /** `yyerrlab` onwards: no state handles the error token, so every state is popped and the parse aborts. */
  method Recover(ss: seq<int>) returns (status: int)
    requires |ss| > 0 && forall k :: 0 <= k < |ss| ==> 0 <= ss[k] < YYFINAL
    ensures status == Status(Aborted)
  {
    var ssp := |ss| - 1;
    while true
      invariant 0 <= ssp < |ss|
      decreases ssp
    {
      NoStateTakesErrorToken(ss[ssp]);
      var yyn := YyPact(ss[ssp]);
      if yyn != YYFLAG && 0 <= yyn + YYTERROR <= YYLAST && YyCheck(yyn + YYTERROR) == YYTERROR {
        assert false;
      }
      if ssp == 0 {
        return 1;
      }
      ssp := ssp - 1;
    }
  }

  lemma RemainingFetched(s: string, cp: nat, tok: Token, cp': nat)
    requires cp <= |s| && cp' <= |s| && (tok, s[cp'..]) == Lex(s[cp..])
    ensures Remaining(Fetched(tok), s[cp'..]) == Remaining(Empty, s[cp..])
  {
  }

  /** The packed tables are looked up, and say about symbol `yychar1` what the automaton does. */
  method ReadTables(yystate: int, yychar1: int) returns (action: Action)
    requires 0 <= yystate < YYFINAL && 0 <= yychar1 <= 15
    ensures action == Act(yystate, yychar1)
  {
    hide YyPact, YyTable, YyCheck, YyDefAct, Act;
    PackedIsAct(yystate, yychar1);
    var yyn := YyPact(yystate);
    if yyn == YYFLAG {
      return Default(yystate);
    }
    yyn := yyn + yychar1;
    if yyn < 0 || yyn > YYLAST || YyCheck(yyn) != yychar1 {
      return Default(yystate);
    }
    yyn := YyTable(yyn);
    if yyn < 0 {
      action := if yyn == YYFLAG then Error else Reduce(-yyn);
    } else if yyn == 0 {
      action := Error;
    } else if yyn == YYFINAL {
      action := Accept;
    } else {
      action := Shift(yyn);
    }
  }

  /** `yydefault`. */
  function Default(yystate: int): Action
    requires 0 <= yystate < YYFINAL
  {
    if YyDefAct(yystate) == 0 then Error else Reduce(YyDefAct(yystate))
  }

  /** A state without explicit actions does the same on every symbol, so no lookahead is fetched for it. */
  lemma FlaggedIsDefault(s: int, sym: int)
    requires 0 <= s < YYFINAL && 0 <= sym <= 15 && YyPact(s) == YYFLAG
    ensures Act(s, sym) == Default(s) && !Default(s).Shift?
  {
  }

  /** `yybackup`: fetch a lookahead if the state needs one, and decide what to do. */
  method Backup(s: string, start: nat, yystate: int, seen: Lookahead)
    returns (action: Action, yychar: Lookahead, cp: nat)
    requires start <= |s| && 0 <= yystate < YYFINAL
    ensures cp <= |s| && Remaining(yychar, s[cp..]) == Remaining(seen, s[start..])
    ensures action == Act(yystate, Sym(Head(Remaining(seen, s[start..]))))
    ensures action.Shift? ==> yychar == Fetched(Head(Remaining(seen, s[start..])))
  {
    hide Act, PackedAction, YyTranslate;
    yychar, cp := seen, start;
    ghost var next := Head(Remaining(seen, s[start..]));
    if YyPact(yystate) == YYFLAG {
      FlaggedIsDefault(yystate, Sym(next));
      return Default(yystate), yychar, cp;
    }
    hide *;
    yychar, cp := Fetch(s, start, seen);
    TranslateIsSym(next);
    SymPositive(next);
    var yychar1 := if External(yychar.tok) <= 0 then 0 else YyTranslate(External(yychar.tok));
    action := ReadTables(yystate, yychar1);
  }

  lemma SymPositive(t: Token)
    ensures 0 <= Sym(t) <= 15 && (External(t) <= 0 ==> Sym(t) == 0)
  {
  }

  /** Read the lookahead unless it is already there. */
  method Fetch(s: string, start: nat, seen: Lookahead) returns (yychar: Lookahead, cp: nat)
    requires start <= |s|
    ensures cp <= |s| && Remaining(yychar, s[cp..]) == Remaining(seen, s[start..])
    ensures yychar == Fetched(Head(Remaining(seen, s[start..])))
  {
    hide Lex;
    yychar, cp := seen, start;
    if yychar.Empty? {
      var tok;
      tok, cp := Yylex(s, cp);
      RemainingFetched(s, start, tok, cp);
      yychar := Fetched(tok);
    }
  }

  /** The size check of `yynewstate`: `full` says that the stack may not grow any more. */
  method Grow(used: nat, yystacksize: nat) returns (full: bool, size: nat)
    requires used <= yystacksize <= YYMAXDEPTH && yystacksize > 0
    ensures full <==> used >= YYMAXDEPTH
    ensures !full ==> used < size <= YYMAXDEPTH
    ensures !full ==> size == if used < yystacksize then yystacksize
                              else if 2 * yystacksize > YYMAXDEPTH then YYMAXDEPTH else 2 * yystacksize
  {
    full, size := false, yystacksize;
    if used >= yystacksize {
      if yystacksize >= YYMAXDEPTH {
        return true, yystacksize;
      }
      size := yystacksize * 2;
      if size > YYMAXDEPTH {
        size := YYMAXDEPTH;
      }
    }
  }

  lemma StateInRange(ss: seq<int>, vs: seq<Cell>)
    requires Stacked(ss, vs)
    ensures forall k :: 0 <= k < |ss| ==> 0 <= ss[k] < YYFINAL
  {
    if |ss| > 1 {
      StateInRange(ss[..|ss| - 1], vs[..|vs| - 1]);
    }
  }

  /** Only after reducing to `start`, which stores the result, can the parser accept. */
  predicate Ready(c: Config) {
    Matches(c.stack) && (Top(c.stack) >= 25 ==> c.res != None)
  }

  lemma ReadyKept(c: Config, limit: nat)
    requires Ready(c) && Step(c, limit).Next?
    ensures Ready(Step(c, limit).config)
    ensures Measure(Step(c, limit).config) < Measure(c)
    ensures Run(c, limit) == Run(Step(c, limit).config, limit)
  {
    hide Measure;
    StepKeepsInvariant(c, limit);
    if Act(Top(c.stack), Sym(Head(c.rest))).Reduce? {
      ReduceFindsHandle(c.stack, Sym(Head(c.rest)));
      ReduceNamesState(Top(c.stack), Sym(Head(c.rest)));
      PoppedShrinks(c.stack, Act(Top(c.stack), Sym(Head(c.rest))).rule);
    }
  }

  /** Carry out a shift or a reduction on the two stacks. */
  method Perform(ss: seq<int>, vs: seq<Cell>, yychar: Lookahead, res: Option<Expr>, action: Action, ghost c: Config)
    returns (ss': seq<int>, vs': seq<Cell>, res': Option<Expr>)
    requires Stacked(ss, vs) && Ready(c) && c.stack == StackOf(ss, vs) && c.res == res
    requires action == ActionAt(c) && (action.Reduce? || (action.Shift? && yychar == Fetched(Head(c.rest))))
    ensures |ss'| == |vs'| > 0 && ss'[0] == 0
    ensures Moved(c) == Config(StackOf(ss', vs'), if action.Shift? then Tail(c.rest) else c.rest, res')
  {
    hide Act;
    res' := res;
    match action {
      case Shift(s') =>
        StackOfPush(ss, vs, s', Tok(yychar.tok));
        ss', vs' := ss + [s'], vs + [Tok(yychar.tok)];
      case Reduce(yyn) =>
        StateInRange(ss, vs);
        ReduceFindsHandle(c.stack, Sym(Head(c.rest)));
        ReduceNamesState(Top(c.stack), Sym(Head(c.rest)));
        var depth, yyval, s' := ReduceBy(ss, vs, yyn);
        if yyn == 1 {
          res' := Some(yyval);
        }
        StackOfPush(ss[..depth], vs[..depth], s', Exp(yyval));
        ss', vs' := ss[..depth] + [s'], vs[..depth] + [Exp(yyval)];
    }
  }

  lemma TopIsLast(ss: seq<int>, vs: seq<Cell>)
    requires Stacked(ss, vs)
    ensures Top(StackOf(ss, vs)) == ss[|ss| - 1] && 0 <= ss[|ss| - 1] < YYFINAL
  {
  }

  lemma GrowsByOne(c: Config)
    requires Matches(c.stack) && (ActionAt(c).Shift? || ActionAt(c).Reduce?)
    ensures Size(Moved(c).stack) <= Size(c.stack) + 1
  {
    if ActionAt(c).Reduce? {
      ReduceFindsHandle(c.stack, Sym(Head(c.rest)));
      ReduceNamesState(Top(c.stack), Sym(Head(c.rest)));
      ReducedMatches(c.stack, ActionAt(c).rule);
    }
  }

  lemma TurnOver(c: Config, limit: nat)
    requires Ready(c)
    ensures ActionAt(c).Error? ==> Run(c, limit) == Aborted
    ensures ActionAt(c).Accept? ==> c.res != None && Run(c, limit) == Accepted(c.res.value)
    ensures ActionAt(c).Shift? || ActionAt(c).Reduce? ==>
      if Size(Moved(c).stack) >= limit then Run(c, limit) == Overflowed
      else Ready(Moved(c)) && Run(c, limit) == Run(Moved(c), limit) && Measure(Moved(c)) < Measure(c)
  {
    if Step(c, limit).Next? {
      ReadyKept(c, limit);
    }
  }

  /** The driver's variables stand for configuration `c`. */
  ghost predicate Represents(c: Config, ss: seq<int>, vs: seq<Cell>, yychar: Lookahead, text: string,
                             res: Option<Expr>) {
    && |ss| == |vs| > 0 && ss[0] == 0
    && c == Config(StackOf(ss, vs), Remaining(yychar, text), res)
  }

  lemma TokenConsumed(t: Token, text: string)
    ensures Remaining(if t == End then Fetched(End) else Empty, text) == Tail(Remaining(Fetched(t), text))
  {
  }

  /** One turn of the loop, up to the size check; with `stop` the parse ends here. */
  method Turn(s: string, start: nat, ss: seq<int>, vs: seq<Cell>, seen: Lookahead, res: Option<Expr>, ghost c: Config)
    returns (stop: bool, status: int, cp: nat, ss': seq<int>, vs': seq<Cell>, yychar: Lookahead, res': Option<Expr>)
    requires start <= |s| && Ready(c) && Represents(c, ss, vs, seen, s[start..], res)
    ensures cp <= |s|
    ensures stop ==> status == Status(Run(c, YYMAXDEPTH)) && (status == 0 ==> res' == Some(Run(c, YYMAXDEPTH).exp))
    ensures !stop ==> ActionAt(c).Shift? || ActionAt(c).Reduce?
    ensures !stop ==> Represents(Moved(c), ss', vs', yychar, s[cp..], res')
  {
    hide Act, Run;
    TopIsLast(ss, vs);
    stop, status, ss', vs', res' := true, 0, ss, vs, res;
    var action;
    action, yychar, cp := Backup(s, start, ss[|ss| - 1], seen);
    TurnOver(c, YYMAXDEPTH);
    hide Ready, StackOf, Remaining, Moved, Step;
    if action.Error? {
      StateInRange(ss, vs);
      status := Recover(ss);
    } else if !action.Accept? {
      stop := false;
      ss', vs', res' := Perform(ss, vs, yychar, res, action, c);
      if action.Shift? {
        TokenConsumed(yychar.tok, s[cp..]);
        if yychar != Fetched(End) {
          yychar := Empty;
        }
      }
    }
  }

  /** `gettextparse__`: parse the expression in `s` from `start`; on success `res` holds its tree. */
  method GettextParse(s: string, start: nat) returns (status: int, res: Option<Expr>, cp: nat)
    requires start <= |s|
    ensures status == Status(Parse(LexAll(s[start..]), YYMAXDEPTH))
    ensures status == 0 ==> res == Some(Parse(LexAll(s[start..]), YYMAXDEPTH).exp)
  {
    hide Run, Act, Measure, Lex, LexAll, Moved;
    var ss, vs := [0], [Tok(End)];
    var yychar, yystacksize := Empty, YYINITDEPTH;
    res, cp := None, start;
    ghost var c := Config(Base, LexAll(s[start..]), None);
    while true
      invariant cp <= |s| && Ready(c) && Represents(c, ss, vs, yychar, s[cp..], res)
      invariant Run(c, YYMAXDEPTH) == Parse(LexAll(s[start..]), YYMAXDEPTH)
      invariant |ss| < yystacksize <= YYMAXDEPTH
      decreases Measure(c)
    {
      StackOfSize(ss, vs);
      var stop;
      stop, status, cp, ss, vs, yychar, res := Turn(s, cp, ss, vs, yychar, res, c);
      if stop {
        return;
      }
      GrowsByOne(c);
      TurnOver(c, YYMAXDEPTH);
      c := Moved(c);
      StackOfSize(ss, vs);
      var full;
      full, yystacksize := Grow(|ss|, yystacksize);
      if full {
        return 2, res, cp;
      }
    }
  }
}
