/** The packed LALR(1) tables of intl/plural.c and the automaton they encode. */
module PluralTables {
  import opened PluralSyntax

  const YYFINAL := 27
  const YYFLAG := -32768
  const YYNTBASE := 16
  const YYLAST := 53
  const YYTERROR := 1

  function YyR1(i: int): int
    requires 0 <= i <= 12
  {
    match i
    case 0 => 0 case 1 => 16 case 2 => 17 case 3 => 17 case 4 => 17 case 5 => 17 case 6 => 17 case 7 => 17
    case 8 => 17 case 9 => 17 case 10 => 17 case 11 => 17 case _ => 17
  }

  function YyR2(i: int): int
    requires 0 <= i <= 12
  {
    match i
    case 0 => 0 case 1 => 1 case 2 => 5 case 3 => 3 case 4 => 3 case 5 => 3 case 6 => 3 case 7 => 3
    case 8 => 3 case 9 => 2 case 10 => 1 case 11 => 1 case _ => 3
  }

  function YyDefAct(i: int): int
    requires 0 <= i <= 27
  {
    match i
    case 0 => 0 case 1 => 0 case 2 => 11 case 3 => 10 case 4 => 0 case 5 => 1 case 6 => 9 case 7 => 0
    case 8 => 0 case 9 => 0 case 10 => 0 case 11 => 0 case 12 => 0 case 13 => 0 case 14 => 0 case 15 => 12
    case 16 => 0 case 17 => 3 case 18 => 4 case 19 => 5 case 20 => 6 case 21 => 7 case 22 => 8 case 23 => 0
    case 24 => 2 case 25 => 0 case 26 => 0 case _ => 0
  }

  function YyDefGoto(i: int): int
    requires 0 <= i <= 1
  {
    match i
    case 0 => 25 case _ => 5
  }

  function YyPact(i: int): int
    requires 0 <= i <= 27
  {
    match i
    case 0 => -9 case 1 => -9 case 2 => -32768 case 3 => -32768 case 4 => -9 case 5 => 34 case 6 => -32768
    case 7 => 11 case 8 => -9 case 9 => -9 case 10 => -9 case 11 => -9 case 12 => -9 case 13 => -9
    case 14 => -9 case 15 => -32768 case 16 => 24 case 17 => 39 case 18 => 43 case 19 => 16 case 20 => 26
    case 21 => -3 case 22 => -32768 case 23 => -9 case 24 => 34 case 25 => 21 case 26 => 53 case _ => -32768
  }

  function YyPgoto(i: int): int
    requires 0 <= i <= 1
  {
    match i
    case 0 => -32768 case _ => -1
  }

  function YyTable(i: int): int
    requires 0 <= i <= 53
  {
    match i
    case 0 => 6 case 1 => 1 case 2 => 2 case 3 => 7 case 4 => 3 case 5 => 4 case 6 => 14 case 7 => 16
    case 8 => 17 case 9 => 18 case 10 => 19 case 11 => 20 case 12 => 21 case 13 => 22 case 14 => 8
    case 15 => 9 case 16 => 10 case 17 => 11 case 18 => 12 case 19 => 13 case 20 => 14 case 21 => 26
    case 22 => 24 case 23 => 12 case 24 => 13 case 25 => 14 case 26 => 15 case 27 => 8 case 28 => 9
    case 29 => 10 case 30 => 11 case 31 => 12 case 32 => 13 case 33 => 14 case 34 => 13 case 35 => 14
    case 36 => 23 case 37 => 8 case 38 => 9 case 39 => 10 case 40 => 11 case 41 => 12 case 42 => 13
    case 43 => 14 case 44 => 10 case 45 => 11 case 46 => 12 case 47 => 13 case 48 => 14 case 49 => 11
    case 50 => 12 case 51 => 13 case 52 => 14 case _ => 27
  }

  function YyCheck(i: int): int
    requires 0 <= i <= 53
  {
    match i
    case 0 => 1 case 1 => 10 case 2 => 11 case 3 => 4 case 4 => 13 case 5 => 14 case 6 => 9 case 7 => 8
    case 8 => 9 case 9 => 10 case 10 => 11 case 11 => 12 case 12 => 13 case 13 => 14 case 14 => 3
    case 15 => 4 case 16 => 5 case 17 => 6 case 18 => 7 case 19 => 8 case 20 => 9 case 21 => 0 case 22 => 23
    case 23 => 7 case 24 => 8 case 25 => 9 case 26 => 15 case 27 => 3 case 28 => 4 case 29 => 5 case 30 => 6
    case 31 => 7 case 32 => 8 case 33 => 9 case 34 => 8 case 35 => 9 case 36 => 12 case 37 => 3 case 38 => 4
    case 39 => 5 case 40 => 6 case 41 => 7 case 42 => 8 case 43 => 9 case 44 => 5 case 45 => 6 case 46 => 7
    case 47 => 8 case 48 => 9 case 49 => 6 case 50 => 7 case 51 => 8 case 52 => 9 case _ => 0
  }

  /** `YYTRANSLATE`: external token number to symbol number. */
  function YyTranslate(code: int): int {
    if code == 33 then 10 else if code == 38 then 5 else if code == 40 then 14 else if code == 41 then 15
    else if code == 58 then 12 else if code == 63 then 3 else if code == 110 then 13 else if code == 124 then 4
    else if code == 256 then 1 else if code == 257 then 6 else if code == 258 then 7 else if code == 259 then 8
    else if code == 260 then 9 else if code == 261 then 11 else if code == 0 then 0
    else if 0 <= code <= 261 then 2 else 18
  }

  datatype Action = Shift(state: int) | Reduce(rule: int) | Accept | Error

  /** The action the driver reads out of the packed tables in state `s` on symbol `sym`. */
  function PackedAction(s: int, sym: int): Action
    requires 0 <= s < YYFINAL && 0 <= sym <= 15
  {
    var n := YyPact(s);
    var m := n + sym;
    if n == YYFLAG || m < 0 || m > YYLAST || YyCheck(m) != sym then
      if YyDefAct(s) == 0 then Error else Reduce(YyDefAct(s))
    else
      var a := YyTable(m);
      if a < 0 then (if a == YYFLAG then Error else Reduce(-a))
      else if a == 0 then Error
      else if a == YYFINAL then Accept
      else Shift(a)
  }

  /** The state the driver enters after reducing to nonterminal `nt` on top of state `s`. */
  function PackedGoto(s: int, nt: int): int
    requires 0 <= s < YYFINAL && 16 <= nt <= 17
  {
    var g := YyPgoto(nt - YYNTBASE) + s;
    if 0 <= g <= YYLAST && YyCheck(g) == s then YyTable(g) else YyDefGoto(nt - YYNTBASE)
  }

  /** Whether state `s` would do anything but be popped when it meets the error token. */
  predicate TakesErrorToken(s: int)
    requires 0 <= s < YYFINAL
  {
    var n := YyPact(s);
    var m := n + YYTERROR;
    n != YYFLAG && 0 <= m <= YYLAST && YyCheck(m) == YYTERROR
  }

  /** States in which an expression is about to begin. */
  predicate StartsExp(s: int) {
    s == 0 || s == 1 || s == 4 || 8 <= s <= 14 || s == 23
  }

  /** The weakest precedence an expression may have when it begins in state `s`. */
  function MinLevel(s: int): int {
    if s == 1 then 7 else if 9 <= s <= 14 then s - 7 else 0
  }

  /** The state reached from `s` once an expression has been read. */
  function GotoExp(s: int): int {
    if s == 0 then 5 else if s == 1 then 6 else if s == 4 then 7 else if s == 23 then 24 else s + 8
  }

  /** The automaton written out by what its states mean, not by where the tables keep them. */
  function Act(s: int, sym: int): Action {
    if StartsExp(s) then
      if sym == 10 then Shift(1) else if sym == 11 then Shift(2)
      else if sym == 13 then Shift(3) else if sym == 14 then Shift(4) else Error
    else if s == 2 then Reduce(11)
    else if s == 3 then Reduce(10)
    else if s == 6 then Reduce(9)
    else if s == 15 then Reduce(12)
    else if s == 25 then if sym == 0 then Shift(26) else Error
    else if s == 26 then if sym == 0 then Accept else Error
    else if 17 <= s <= 22 then if s - 13 < sym <= 9 then Shift(sym + 5) else Reduce(s - 14)
    else if 3 <= sym <= 9 then Shift(sym + 5)
    else if s == 5 then Reduce(1)
    else if s == 7 then if sym == 15 then Shift(15) else Error
    else if s == 16 then if sym == 12 then Shift(23) else Error
    else Reduce(2)
  }

  lemma TranslateIsSym(t: Token)
    ensures YyTranslate(External(t)) == Sym(t)
  {
  }

  lemma RowsBelow8(s: int, sym: int)
    requires 0 <= s < 8 && 0 <= sym <= 15
    ensures PackedAction(s, sym) == Act(s, sym)
  {
  }

  lemma RowsBelow15(s: int, sym: int)
    requires 8 <= s < 15 && 0 <= sym <= 15
    ensures PackedAction(s, sym) == Act(s, sym)
  {
  }

  lemma RowsBelow20(s: int, sym: int)
    requires 15 <= s < 20 && 0 <= sym <= 15
    ensures PackedAction(s, sym) == Act(s, sym)
  {
  }

  lemma RowsBelow27(s: int, sym: int)
    requires 20 <= s < YYFINAL && 0 <= sym <= 15
    ensures PackedAction(s, sym) == Act(s, sym)
  {
  }

  /** Unpacking: the compressed tables hold exactly the precedence automaton, for every state and symbol. */
  lemma PackedIsAct(s: int, sym: int)
    requires 0 <= s < YYFINAL && 0 <= sym <= 15
    ensures PackedAction(s, sym) == Act(s, sym)
  {
    if s < 8 {
      RowsBelow8(s, sym);
    } else if s < 15 {
      RowsBelow15(s, sym);
    } else if s < 20 {
      RowsBelow20(s, sym);
    } else {
      RowsBelow27(s, sym);
    }
  }

  lemma PackedGotoIsGoto(s: int)
    requires 0 <= s < YYFINAL
    ensures StartsExp(s) ==> PackedGoto(s, 17) == GotoExp(s)
    ensures PackedGoto(s, 16) == 25
  {
  }

  /** No state accepts the error token, so recovery pops the whole stack and the parse aborts. */
  lemma NoStateTakesErrorToken(s: int)
    requires 0 <= s < YYFINAL
    ensures !TakesErrorToken(s)
  {
  }
}
