/** The scanner of intl/plural.c, and the proof that it undoes the spelling of tokens. */
module PluralLexer {
  import opened PluralSyntax

  /** `unsigned long` has 32 bits. */
  const ULONG := 0x1_0000_0000

  predicate IsBlank(c: char) {
    c == ' ' || c == '\t'
  }

  predicate IsDigit(c: char) {
    '0' <= c <= '9'
  }

  function DigitValue(c: char): nat
    requires IsDigit(c)
  {
    c as int - '0' as int
  }

  /** The character a C pointer to the string `x` points at. */
  function First(x: string): char {
    if x == [] then '\0' else x[0]
  }

  function SkipBlanks(x: string): (r: string)
    ensures |r| <= |x|
    ensures !IsBlank(First(r))
  {
    if x != [] && IsBlank(x[0]) then SkipBlanks(x[1..]) else x
  }

  /** One more decimal digit, with the wrap-around of the machine word. */
  function Accumulate(acc: nat, digit: nat): (r: nat)
    ensures r < ULONG
  {
    (acc * 10 % ULONG + digit) % ULONG
  }

  /** Reads the digits in front of `x` onto `acc`. */
  function Digits(x: string, acc: nat): (r: (nat, string))
    ensures |r.1| <= |x|
    ensures acc < ULONG ==> r.0 < ULONG
  {
    if x != [] && IsDigit(x[0]) then Digits(x[1..], Accumulate(acc, DigitValue(x[0]))) else (acc, x)
  }

  predicate EndsInput(c: char) {
    c == '\0' || c == ';' || c == '\n'
  }

  /** The token that begins with the non-digit `c` before `next`, and how many characters it takes. */
  function Symbol(c: char, next: char): (r: (Token, nat))
    ensures r.0 != End
    ensures 1 <= r.1 <= 2 && (r.1 == 2 ==> next == '=' || next == '&' || next == '|')
  {
    match c
    case '=' => if next == '=' then (EquOp2(Equal), 2) else (Bad, 1)
    case '!' => if next == '=' then (EquOp2(NotEqual), 2) else (Bang, 1)
    case '&' => if next == '&' then (Ampersand, 2) else (Bad, 1)
    case '|' => if next == '|' then (Bar, 2) else (Bad, 1)
    case '<' => if next == '=' then (CmpOp2(LessOrEqual), 2) else (CmpOp2(LessThan), 1)
    case '>' => if next == '=' then (CmpOp2(GreaterOrEqual), 2) else (CmpOp2(GreaterThan), 1)
    case '*' => (MulOp2(Mult), 1)
    case '/' => (MulOp2(Divide), 1)
    case '%' => (MulOp2(Module), 1)
    case '+' => (AddOp2(Plus), 1)
    case '-' => (AddOp2(Minus), 1)
    case 'n' => (VarN, 1)
    case '?' => (Question, 1)
    case ':' => (Colon, 1)
    case '(' => (LParen, 1)
    case ')' => (RParen, 1)
    case _ => (Bad, 1)
  }

  /** The token at a position where there is no blank, and the text left over. */
  function LexHere(y: string): (r: (Token, string))
    ensures |r.1| <= |y|
    ensures r.0 == End ==> r.1 == y
    ensures r.0 != End ==> |r.1| < |y|
  {
    if EndsInput(First(y)) then (End, y)
    else if IsDigit(y[0]) then
      var (n, rest) := Digits(y[1..], DigitValue(y[0]));
      (Number(n), rest)
    else
      var (t, k) := Symbol(y[0], First(y[1..]));
      (t, y[k..])
  }

  /** One call of the scanner: the token in front of `x` and the text left over. */
  function Lex(x: string): (r: (Token, string))
    ensures |r.1| <= |x|
    ensures r.0 != End ==> |r.1| < |x|
  {
    LexHere(SkipBlanks(x))
  }

  /** All tokens in front of `x`, up to the first end of input. */
  function LexAll(x: string): (ts: seq<Token>)
    ensures End !in ts
    decreases |x|
  {
    var (t, y) := Lex(x);
    if t == End then [] else [t] + LexAll(y)
  }

  lemma OneFurther(s: string, pos: nat)
    requires pos < |s|
    ensures s[pos..] != [] && s[pos..][0] == s[pos] && s[pos..][1..] == s[pos + 1..]
  {
  }

  /** `yylex`, on the string `s` read from `start`; `pos` is where the pointer is left. */
  method Yylex(s: string, start: nat) returns (tok: Token, pos: nat)
    requires start <= |s|
    ensures start <= pos <= |s|
    ensures (tok, s[pos..]) == Lex(s[start..])
  {
    pos := start;
    while pos < |s| && IsBlank(s[pos])
      invariant start <= pos <= |s|
      invariant SkipBlanks(s[pos..]) == SkipBlanks(s[start..])
    {
      OneFurther(s, pos);
      pos := pos + 1;
    }
    tok, pos := YylexHere(s, pos);
  }

  /** The rest of `yylex`, once blanks are skipped. */
  method YylexHere(s: string, start: nat) returns (tok: Token, pos: nat)
    requires start <= |s|
    ensures start <= pos <= |s|
    ensures (tok, s[pos..]) == LexHere(s[start..])
  {
    hide Symbol, Digits;
    pos := start;
    if pos == |s| || EndsInput(s[pos]) {
      return End, pos;
    }
    OneFurther(s, pos);
    if IsDigit(s[pos]) {
      var n;
      n, pos := ScanNumber(s, pos + 1, DigitValue(s[pos]));
      return Number(n), pos;
    }
    var width;
    var next := if pos + 1 < |s| then s[pos + 1] else '\0';
    assert next == First(s[pos + 1..]);
    tok, width := ScanSymbol(s[pos], next);
    assert s[pos..][width..] == s[pos + width..];
    pos := pos + width;
  }

  lemma SymbolIsSpelt(c: char, next: char)
    ensures var (t, k) := Symbol(c, next);
      t != Bad ==> Proper(t) && Spell(t) == [c, next][..k]
  {
    assert [c, next][..1] == [c] && [c, next][..2] == [c, next];
  }

  /** No token's spelling is passed over, or cut short. */
  lemma LongestSymbol(c: char, next: char, t: Token)
    requires Proper(t) && !t.Number? && Spell(t) <= [c, next]
    ensures Symbol(c, next).0 != Bad && |Spell(t)| <= Symbol(c, next).1
  {
    assert Spell(t)[0] == c && (|Spell(t)| == 2 ==> Spell(t)[1] == next);
  }

  /** The operator branches of `yylex`: the longest token whose spelling begins here, if there is one. */
  method ScanSymbol(c: char, next: char) returns (tok: Token, width: nat)
    ensures (tok, width) == Symbol(c, next)
    ensures 1 <= width <= 2 && tok != End && (tok == Bad ==> width == 1)
    ensures tok != Bad ==> Proper(tok) && Spell(tok) == [c, next][..width]
    ensures forall t :: Proper(t) && !t.Number? && Spell(t) <= [c, next] ==> tok != Bad && |Spell(t)| <= width
  {
    SymbolIsSpelt(c, next);
    forall t | Proper(t) && !t.Number? && Spell(t) <= [c, next]
      ensures Symbol(c, next).0 != Bad && |Spell(t)| <= Symbol(c, next).1
    {
      LongestSymbol(c, next, t);
    }
    hide Spell;
    width := 1;
    match c {
      case '=' => if next == '=' { tok, width := EquOp2(Equal), 2; } else { tok := Bad; }
      case '!' => if next == '=' { tok, width := EquOp2(NotEqual), 2; } else { tok := Bang; }
      case '&' => if next == c { tok, width := Ampersand, 2; } else { tok := Bad; }
      case '|' => if next == c { tok, width := Bar, 2; } else { tok := Bad; }
      case '<' => if next == '=' { tok, width := CmpOp2(LessOrEqual), 2; } else { tok := CmpOp2(LessThan); }
      case '>' => if next == '=' { tok, width := CmpOp2(GreaterOrEqual), 2; } else { tok := CmpOp2(GreaterThan); }
      case '*' => tok := MulOp2(Mult);
      case '/' => tok := MulOp2(Divide);
      case '%' => tok := MulOp2(Module);
      case '+' => tok := AddOp2(Plus);
      case '-' => tok := AddOp2(Minus);
      case 'n' => tok := VarN;
      case '?' => tok := Question;
      case ':' => tok := Colon;
      case '(' => tok := LParen;
      case ')' => tok := RParen;
      case _ => tok := Bad;
    }
  }

  /** The digit loop of `yylex`. */
  method ScanNumber(s: string, start: nat, first: nat) returns (n: nat, pos: nat)
    requires start <= |s|
    ensures start <= pos <= |s|
    ensures (n, s[pos..]) == Digits(s[start..], first)
  {
    n, pos := first, start;
    while pos < |s| && IsDigit(s[pos])
      invariant start <= pos <= |s|
      invariant Digits(s[pos..], n) == Digits(s[start..], first)
    {
      hide Accumulate;
      OneFurther(s, pos);
      n := Accumulate(n, DigitValue(s[pos]));
      pos := pos + 1;
    }
  }

  // ----- spelling -----

  /** The tokens the scanner can deliver inside an expression. */
  predicate Proper(t: Token) {
    match t
    case End => false
    case Bad => false
    case EquOp2(op) => op == Equal || op == NotEqual
    case CmpOp2(op) => op == LessThan || op == LessOrEqual || op == GreaterThan || op == GreaterOrEqual
    case AddOp2(op) => op == Plus || op == Minus
    case MulOp2(op) => op == Mult || op == Divide || op == Module
    case Number(n) => n < ULONG
    case _ => true
  }

  function Decimal(n: nat): (r: string)
    ensures r != [] && forall i :: 0 <= i < |r| ==> IsDigit(r[i])
  {
    if n < 10 then [(n + '0' as int) as char] else Decimal(n / 10) + [(n % 10 + '0' as int) as char]
  }

  function Spell(t: Token): (r: string)
    requires Proper(t)
    ensures r != []
  {
    match t
    case EquOp2(op) => if op == Equal then "==" else "!="
    case CmpOp2(op) =>
      if op == LessThan then "<" else if op == LessOrEqual then "<=" else if op == GreaterThan then ">" else ">="
    case AddOp2(op) => if op == Plus then "+" else "-"
    case MulOp2(op) => if op == Mult then "*" else if op == Divide then "/" else "%"
    case Number(n) => Decimal(n)
    case Question => "?"
    case Bar => "||"
    case Ampersand => "&&"
    case Bang => "!"
    case Colon => ":"
    case VarN => "n"
    case LParen => "("
    case RParen => ")"
  }

  /** Two tokens that may be written without a blank between them. */
  predicate Separate(t: Token, u: Token) {
    && !(t.Number? && u.Number?)
    && !((t == Bang || t == CmpOp2(LessThan) || t == CmpOp2(GreaterThan)) && u == EquOp2(Equal))
  }

  predicate Blanks(x: string) {
    forall i :: 0 <= i < |x| ==> IsBlank(x[i])
  }

  /** Where a token sequence may be written with the given blanks in front of each token. */
  predicate Legible(ts: seq<Token>, gaps: seq<string>) {
    && |gaps| == |ts|
    && (forall i :: 0 <= i < |ts| ==> Proper(ts[i]) && Blanks(gaps[i]))
    && (forall i :: 0 < i < |ts| ==> gaps[i] != [] || Separate(ts[i - 1], ts[i]))
  }

  /** The text: each token after its blanks, then `tail`. */
  function Layout(ts: seq<Token>, gaps: seq<string>, tail: string): string
    requires Legible(ts, gaps)
  {
    if ts == [] then tail else gaps[0] + (Spell(ts[0]) + Layout(ts[1..], gaps[1..], tail))
  }

  /** What may follow an expression: the end of the string, a semicolon or a newline. */
  predicate Terminator(tail: string) {
    EndsInput(First(tail))
  }

  lemma {:induction false} BlanksSkipped(x: string, y: string)
    requires Blanks(x) && !IsBlank(First(y))
    ensures SkipBlanks(x + y) == y
  {
    if x == [] {
      assert x + y == y;
    } else {
      assert (x + y)[1..] == x[1..] + y;
      BlanksSkipped(x[1..], y);
    }
  }

  /** The value the digit loop builds from a string of digits. */
  function Fold(x: string, acc: nat): nat
    requires forall i :: 0 <= i < |x| ==> IsDigit(x[i])
  {
    if x == [] then acc else Fold(x[1..], Accumulate(acc, DigitValue(x[0])))
  }

  lemma {:induction false} DigitsFold(x: string, y: string, acc: nat)
    requires (forall i :: 0 <= i < |x| ==> IsDigit(x[i])) && !IsDigit(First(y))
    ensures Digits(x + y, acc) == (Fold(x, acc), y)
  {
    if x == [] {
      assert x + y == y;
    } else {
      assert (x + y)[1..] == x[1..] + y;
      DigitsFold(x[1..], y, Accumulate(acc, DigitValue(x[0])));
    }
  }

  lemma {:induction false} FoldSnoc(x: string, c: char, acc: nat)
    requires (forall i :: 0 <= i < |x| ==> IsDigit(x[i])) && IsDigit(c)
    ensures Fold(x + [c], acc) == Accumulate(Fold(x, acc), DigitValue(c))
  {
    if x == [] {
      assert x + [c] == [c];
      assert [c][1..] == [];
    } else {
      assert (x + [c])[1..] == x[1..] + [c];
      FoldSnoc(x[1..], c, Accumulate(acc, DigitValue(x[0])));
    }
  }

  lemma NoWrap(n: nat)
    requires n < ULONG
    ensures Accumulate(n / 10, n % 10) == n
  {
  }

  lemma {:induction false} DecimalValue(n: nat)
    requires n < ULONG
    ensures Fold(Decimal(n), 0) == n
  {
    hide Accumulate;
    NoWrap(n);
    if n < 10 {
      assert Decimal(n)[1..] == [];
      assert DigitValue(Decimal(n)[0]) == n == n % 10;
    } else {
      DecimalValue(n / 10);
      FoldSnoc(Decimal(n / 10), (n % 10 + '0' as int) as char, 0);
    }
  }

  lemma NumberSpelled(n: nat, y: string)
    requires n < ULONG && !IsDigit(First(y))
    ensures LexHere(Decimal(n) + y) == (Number(n), y)
  {
    hide Accumulate, Symbol, Decimal;
    var x := Decimal(n);
    DecimalValue(n);
    assert (x + y)[0] == x[0];
    assert (x + y)[1..] == x[1..] + y;
    NoWrap(DigitValue(x[0]));
    assert Fold(x, 0) == Fold(x[1..], DigitValue(x[0]));
    DigitsFold(x[1..], y, DigitValue(x[0]));
  }

  /** The character that would be taken as part of token `t` if it came right after it. */
  predicate Extends(t: Token, c: char) {
    || (t.Number? && IsDigit(c))
    || ((t == Bang || t == CmpOp2(LessThan) || t == CmpOp2(GreaterThan)) && c == '=')
  }

  lemma SymbolSpelled(t: Token, next: char)
    requires Proper(t) && !t.Number? && !Extends(t, next)
    ensures |Spell(t)| <= 2
    ensures Symbol(Spell(t)[0], if |Spell(t)| == 1 then next else Spell(t)[1]) == (t, |Spell(t)|)
    ensures !EndsInput(Spell(t)[0]) && !IsDigit(Spell(t)[0])
  {
  }

  lemma TokenSpelled(t: Token, y: string)
    requires Proper(t) && !Extends(t, First(y))
    ensures LexHere(Spell(t) + y) == (t, y)
  {
    hide Symbol;
    var x := Spell(t) + y;
    if t.Number? {
      NumberSpelled(t.num, y);
    } else {
      hide Spell;
      SymbolSpelled(t, First(y));
      assert First(x) == x[0] == Spell(t)[0];
      assert First(x[1..]) == if |Spell(t)| == 1 then First(y) else Spell(t)[1];
      assert x[|Spell(t)|..] == y;
    }
  }

  lemma TerminatorIsEnd(tail: string)
    requires Terminator(tail)
    ensures LexAll(tail) == [] && !IsBlank(First(tail))
    ensures forall t :: !Extends(t, First(tail))
  {
  }

  lemma ProperStarts(u: Token)
    requires Proper(u)
    ensures !IsBlank(Spell(u)[0])
  {
  }

  /** Blanks in front of a token do not matter. */
  lemma BlanksIgnored(gap: string, x: string)
    requires Blanks(gap) && x != [] && !IsBlank(x[0])
    ensures Lex(gap + x) == LexHere(x)
  {
    hide LexHere;
    BlanksSkipped(gap, x);
  }

  /** The scanner undoes every legible layout, whatever the spacing and whatever follows the terminator. */
  lemma {:induction false} LexUndoesLayout(ts: seq<Token>, gaps: seq<string>, tail: string)
    requires Legible(ts, gaps) && Terminator(tail)
    ensures LexAll(Layout(ts, gaps, tail)) == ts
    decreases |ts|
  {
    hide LexHere, Lex, Spell;
    if ts == [] {
      TerminatorIsEnd(tail);
    } else {
      var rest := Layout(ts[1..], gaps[1..], tail);
      LexUndoesLayout(ts[1..], gaps[1..], tail);
      FollowerSeparates(ts, gaps, tail);
      TokenSpelled(ts[0], rest);
      ProperStarts(ts[0]);
      BlanksIgnored(gaps[0], Spell(ts[0]) + rest);
      assert ts[0] != End;
    }
  }

  lemma FollowerSeparates(ts: seq<Token>, gaps: seq<string>, tail: string)
    requires Legible(ts, gaps) && Terminator(tail) && ts != []
    ensures !Extends(ts[0], First(Layout(ts[1..], gaps[1..], tail)))
  {
  }
}
