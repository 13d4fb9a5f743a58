/** Evaluating plural trees and choosing a form (intl/dcigettext.c, intl/loadmsgcat.c). */
module PluralForms {
  import opened PluralSyntax
  import opened PluralParser
  import opened PluralGrammar
  import opened PluralHeader
  import opened PluralLexer
  import opened PluralPrinting
  import opened PluralDriver
  import opened Wrappers

  function Truth(b: bool): nat {
    if b then 1 else 0
  }

  /** A binary operator other than `||` and `&&` on machine words; nothing on a zero divisor. */
  function Apply(op: BinOp, l: nat, r: nat): (v: Option<nat>)
    requires l < ULONG && r < ULONG && op != Lor && op != Land
    ensures v.Some? ==> v.value < ULONG
    ensures v.None? <==> (op == Divide || op == Module) && r == 0
  {
    match op
    case Mult => Some(l * r % ULONG)
    case Divide => if r == 0 then None else DivideBelow(l, r); Some(l / r)
    case Module => if r == 0 then None else Some(l % r)
    case Plus => Some((l + r) % ULONG)
    case Minus => Some((l - r) % ULONG)
    case LessThan => Some(Truth(l < r))
    case GreaterThan => Some(Truth(l > r))
    case LessOrEqual => Some(Truth(l <= r))
    case GreaterOrEqual => Some(Truth(l >= r))
    case Equal => Some(Truth(l == r))
    case NotEqual => Some(Truth(l != r))
  }

  lemma DivideBelow(l: nat, r: nat)
    requires r > 0
    ensures 0 <= l / r <= l
  {
    var q := l / r;
    assert l == q * r + l % r;
    ProductAbove(q, r);
  }

  lemma ProductAbove(q: int, r: int)
    requires r > 0
    ensures q >= 0 ==> q * r >= q
    ensures q < 0 ==> q * r <= q
  {
  }

  /** `plural_eval`; the result is missing when evaluation divides by zero. */
  function Eval(e: Expr, n: nat): (v: Option<nat>)
    requires FitsWord(e) && n < ULONG
    ensures v.Some? ==> v.value < ULONG
  {
    match e
    case Var => Some(n)
    case Num(k) => Some(k)
    case Lnot(a) =>
      var v := Eval(a, n);
      if v.None? then None else Some(Truth(v.value == 0))
    case Bin(op, l, r) =>
      var v := Eval(l, n);
      if v.None? then None
      else if op == Lor && v.value != 0 then Some(1)
      else if op == Land && v.value == 0 then Some(0)
      else
        var w := Eval(r, n);
        if w.None? then None
        else if op == Lor || op == Land then Some(Truth(w.value != 0))
        else Apply(op, v.value, w.value)
    case Qmop(b, t, f) =>
      var v := Eval(b, n);
      if v.None? then None else if v.value != 0 then Eval(t, n) else Eval(f, n)
  }

  /** A zero divisor is met on the path that evaluation takes. */
  predicate DividesByZero(e: Expr, n: nat)
    requires FitsWord(e) && n < ULONG
  {
    match e
    case Var => false
    case Num(_) => false
    case Lnot(a) => DividesByZero(a, n)
    case Bin(op, l, r) =>
      || DividesByZero(l, n)
      || (op == Lor && Eval(l, n) == Some(0) && DividesByZero(r, n))
      || (op == Land && Eval(l, n) != Some(0) && DividesByZero(r, n))
      || (op != Lor && op != Land && (DividesByZero(r, n) || ((op == Divide || op == Module) && Eval(r, n) == Some(0))))
    case Qmop(b, t, f) =>
      DividesByZero(b, n) || (if Eval(b, n) == Some(0) then DividesByZero(f, n) else DividesByZero(t, n))
  }

  /** Evaluation fails exactly on a zero divisor; the short-circuit operators and `?:` protect the rest. */
  lemma {:induction false} EvalFailsExactly(e: Expr, n: nat)
    requires FitsWord(e) && n < ULONG
    ensures Eval(e, n).None? <==> DividesByZero(e, n)
    decreases e
  {
    match e {
      case Var => case Num(_) =>
      case Lnot(a) => EvalFailsExactly(a, n);
      case Bin(_, l, r) =>
        EvalFailsExactly(l, n);
        EvalFailsExactly(r, n);
      case Qmop(b, t, f) =>
        EvalFailsExactly(b, n);
        EvalFailsExactly(t, n);
        EvalFailsExactly(f, n);
    }
  }

  /** `germanic_plural`. */
  const GERMANIC: Expr := Bin(NotEqual, Var, Num(1))

  /** The built-in tree picks the same form as the fallback `n == 1 ? msgid1 : msgid2`. */
  lemma GermanicAgrees(n: nat)
    requires n < ULONG
    ensures FitsWord(GERMANIC) && Eval(GERMANIC, n) == Some(if n == 1 then 0 else 1)
  {
  }

  // ----- plural_lookup -----

  /** A translation is a run of forms, each closed by a NUL. */
  predicate Closed(trans: string) {
    trans != [] && trans[|trans| - 1] == '\0'
  }

  /** Number of forms, i.e. of NULs. */
  function Forms(trans: string): nat {
    if trans == [] then 0 else Forms(trans[..|trans| - 1]) + (if trans[|trans| - 1] == '\0' then 1 else 0)
  }

  /** `p` is the place where form number `k` begins. */
  predicate StartsForm(trans: string, p: nat, k: nat) {
    && p < |trans|
    && (p == 0 || trans[p - 1] == '\0')
    && Forms(trans[..p]) == k
  }

  lemma FormsAppend(x: string, y: string)
    ensures Forms(x + y) == Forms(x) + Forms(y)
  {
    if y == [] {
      assert x + y == x;
    } else {
      assert (x + y)[..|x + y| - 1] == x + y[..|y| - 1];
      FormsAppend(x, y[..|y| - 1]);
    }
  }

  lemma FormsMonotone(trans: string, p: nat, q: nat)
    requires p <= q <= |trans|
    ensures Forms(trans[..p]) <= Forms(trans[..q])
    ensures p < q && trans[q - 1] == '\0' ==> Forms(trans[..p]) < Forms(trans[..q])
  {
    assert trans[..q] == trans[..p] + trans[p..q];
    FormsAppend(trans[..p], trans[p..q]);
  }

  /** A form begins in one place only. */
  lemma FormStartUnique(trans: string, p: nat, q: nat, k: nat)
    requires StartsForm(trans, p, k) && StartsForm(trans, q, k)
    ensures p == q
  {
    if p < q {
      FormsMonotone(trans, p, q);
    } else if q < p {
      FormsMonotone(trans, q, p);
    }
  }

  /** `strchr (p, '\0')`. */
  method StrChrNul(trans: string, p: nat) returns (q: nat)
    requires Closed(trans) && p < |trans|
    ensures p <= q < |trans| && trans[q] == '\0'
    ensures forall i :: p <= i < q ==> trans[i] != '\0'
  {
    q := p;
    while trans[q] != '\0'
      invariant p <= q < |trans|
      invariant forall i :: p <= i < q ==> trans[i] != '\0'
      decreases |trans| - q
    {
      q := q + 1;
    }
  }

  lemma {:induction false} NoNul(x: string)
    requires forall i :: 0 <= i < |x| ==> x[i] != '\0'
    ensures Forms(x) == 0
  {
    if x != [] {
      NoNul(x[..|x| - 1]);
    }
  }

  lemma NextForm(trans: string, p: nat, q: nat)
    requires p <= q < |trans| && trans[q] == '\0' && forall i :: p <= i < q ==> trans[i] != '\0'
    ensures Forms(trans[..q + 1]) == Forms(trans[..p]) + 1
  {
    assert trans[..q + 1] == trans[..q] + ['\0'];
    assert trans[..q + 1][..q] == trans[..q];
    assert trans[..q] == trans[..p] + trans[p..q];
    FormsAppend(trans[..p], trans[p..q]);
    NoNul(trans[p..q]);
  }

  /** The form number that `plural_lookup` settles on. */
  function ChosenForm(index: nat, nplurals: nat, forms: nat): nat {
    if index < nplurals && index < forms then index else 0
  }

  /** `plural_lookup`, given the value of the plural expression; `p` is the offset of the form returned. */
  method PluralLookup(value: nat, nplurals: nat, trans: string) returns (p: nat)
    requires Closed(trans)
    ensures StartsForm(trans, p, ChosenForm(value, nplurals, Forms(trans)))
  {
    var index := value;
    if index >= nplurals {
      index := 0;
    }
    p := 0;
    var todo := index;
    assert trans[..0] == [];
    FormsMonotone(trans, 0, |trans|);
    assert trans[..|trans|] == trans;
    while todo > 0
      invariant 0 <= todo <= index && StartsForm(trans, p, index - todo)
    {
      var q := StrChrNul(trans, p);
      NextForm(trans, p, q);
      todo := todo - 1;
      p := q + 1;
      if p >= |trans| {
        assert trans[..p] == trans;
        return 0;
      }
    }
    FormsMonotone(trans, p, |trans|);
    assert trans[..|trans|] == trans;
    assert index == Forms(trans[..p]) < Forms(trans);
  }

  // ----- the set-up at the end of _nl_load_domain -----

  /** The header has the number of forms and an expression, behind the first `nplurals=` and the first `plural=`. */
  ghost predicate Declares(header: string, i: nat, j: nat) {
    && FirstAt(header, "plural=", i) && FirstAt(header, "nplurals=", j)
    && UnsignedAt(header, PastSpaces(header, j + 9)).1 > PastSpaces(header, j + 9)
    && Parse(LexAll(header[i + 7..]), YYMAXDEPTH).Accepted?
  }

  /** The scanner delivers no number that does not fit the word. */
  predicate SmallNumbers(ts: seq<Token>) {
    forall i :: 0 <= i < |ts| && ts[i].Number? ==> ts[i].num < ULONG
  }

  lemma {:induction false} ScannedNumbers(x: string)
    ensures SmallNumbers(LexAll(x))
    decreases |x|
  {
    var (t, y) := Lex(x);
    if t != End {
      ScannedNumbers(y);
      SmallHere(SkipBlanks(x));
      hide Lex;
    }
  }

  lemma SmallHere(y: string)
    ensures LexHere(y).0.Number? ==> LexHere(y).0.num < ULONG
  {
  }

  lemma {:induction false} TextFitsWord(c: Cst, rest: seq<Token>)
    requires Obeys(c) && SmallNumbers(Yield(c, rest))
    ensures FitsWord(Tree(c)) && SmallNumbers(rest)
    decreases c
  {
    match c {
      case CVar => DropFirst(VarN, rest);
      case CNum(n) =>
        DropFirst(Number(n), rest);
        assert Yield(c, rest)[0] == Number(n);
      case CNot(a) =>
        DropFirst(Bang, Yield(a, rest));
        TextFitsWord(a, rest);
      case CParen(a) =>
        DropFirst(LParen, Yield(a, [RParen] + rest));
        TextFitsWord(a, [RParen] + rest);
        DropFirst(RParen, rest);
      case CInfix(op, l, r) =>
        TextFitsWord(l, [op] + Yield(r, rest));
        DropFirst(op, Yield(r, rest));
        TextFitsWord(r, rest);
      case CCond(b, t, f) =>
        TextFitsWord(b, [Question] + Yield(t, [Colon] + Yield(f, rest)));
        DropFirst(Question, Yield(t, [Colon] + Yield(f, rest)));
        TextFitsWord(t, [Colon] + Yield(f, rest));
        DropFirst(Colon, Yield(f, rest));
        TextFitsWord(f, rest);
    }
  }

  lemma DropFirst(t: Token, ts: seq<Token>)
    ensures SmallNumbers([t] + ts) ==> SmallNumbers(ts)
  {
    assert ([t] + ts)[1..] == ts;
    assert forall i :: 0 <= i < |ts| ==> ts[i] == ([t] + ts)[i + 1];
  }

  /** So every tree that is parsed can be evaluated. */
  lemma ParsedFitsWord(x: string)
    requires Parse(LexAll(x), YYMAXDEPTH).Accepted?
    ensures FitsWord(Parse(LexAll(x), YYMAXDEPTH).exp)
  {
    hide LexAll, Parse;
    var c := ParsedIsReadable(LexAll(x), YYMAXDEPTH);
    ScannedNumbers(x);
    TextFitsWord(c, []);
  }

  /** The plural tree and the number of forms of a catalogue, from its header if there is one. */
  method PluralSetup(header: Option<string>) returns (tree: Expr, count: nat)
    ensures header.Some? ==> forall i: nat, j: nat :: Declares(header.value, i, j) ==>
      tree == Parse(LexAll(header.value[i + 7..]), YYMAXDEPTH).exp
      && count == UnsignedAt(header.value, PastSpaces(header.value, j + 9)).0
    ensures (header.Some? ==> forall i: nat, j: nat :: !Declares(header.value, i, j)) ==> tree == GERMANIC && count == 2
    ensures FitsWord(tree)
  {
    hide FirstAt, Absent, UnsignedAt, LexAll, Parse;
    if header.Some? {
      var h := header.value;
      var plural := StrStr(h, "plural=");
      var nplurals := StrStr(h, "nplurals=");
      if plural.None? || nplurals.None? {
        NotDeclared(h);
        return GERMANIC, 2;
      }
      DeclaredOnce(h, plural.value, nplurals.value);
      var at := SkipSpaces(h, nplurals.value + 9);
      var n, endp := StrToUl(h, at);
      if at == endp {
        return GERMANIC, 2;
      }
      var status, res, cp := GettextParse(h, plural.value + 7);
      if status == 0 {
        assert Declares(h, plural.value, nplurals.value);
        ParsedFitsWord(h[plural.value + 7..]);
        return res.value, n;
      }
    }
    return GERMANIC, 2;
  }

  lemma NotDeclared(h: string)
    ensures Absent(h, "plural=") || Absent(h, "nplurals=") ==> forall i: nat, j: nat :: !Declares(h, i, j)
  {
    hide UnsignedAt, LexAll, Parse;
  }

  lemma DeclaredOnce(h: string, i: nat, j: nat)
    requires FirstAt(h, "plural=", i) && FirstAt(h, "nplurals=", j)
    ensures i + 7 <= |h| && j + 9 <= |h|
    ensures forall k: nat, l: nat :: Declares(h, k, l) ==> k == i && l == j
  {
    hide UnsignedAt, LexAll, Parse;
    forall k: nat, l: nat | Declares(h, k, l)
      ensures k == i && l == j
    {
      FirstIsUnique(h, "plural=", i, k);
      FirstIsUnique(h, "nplurals=", j, l);
    }
  }

  /** From any header to the form for a count; nothing where evaluation divides by zero. */
  method FormFor(header: Option<string>, n: nat, trans: string) returns (p: Option<nat>)
    requires n < ULONG && Closed(trans)
    ensures header.Some? ==> forall i: nat, j: nat :: Declares(header.value, i, j) ==>
      var e, count := Parse(LexAll(header.value[i + 7..]), YYMAXDEPTH).exp,
                      UnsignedAt(header.value, PastSpaces(header.value, j + 9)).0;
      && FitsWord(e)
      && match Eval(e, n)
         case None => p.None?
         case Some(v) => p.Some? && StartsForm(trans, p.value, ChosenForm(v, count, Forms(trans)))
    ensures (header.Some? ==> forall i: nat, j: nat :: !Declares(header.value, i, j)) ==>
      p.Some? && StartsForm(trans, p.value, ChosenForm(if n == 1 then 0 else 1, 2, Forms(trans)))
  {
    hide Declares, Parse, LexAll, UnsignedAt, PastSpaces, StartsForm;
    var tree, count := PluralSetup(header);
    GermanicAgrees(n);
    var value := Eval(tree, n);
    hide Eval;
    if value == None {
      return None;
    }
    var start := PluralLookup(value.value, count, trans);
    p := Some(start);
  }

  /** The header of a catalogue: anything, the number of forms, anything, and the expression. */
  function HeaderText(before: string, spaces: string, nplurals: nat, between: string, text: string): string {
    before + "nplurals=" + spaces + Decimal(nplurals) + between + "plural=" + text
  }

  /** A tree as it may be written, with blanks. */
  function Spelt(e: Expr, gaps: seq<string>, tail: string): string
    requires FitsWord(e) && |gaps| == |Tokens(e)| && forall i :: 0 <= i < |gaps| ==> Blanks(gaps[i])
  {
    TokensLegible(e, gaps);
    Layout(Tokens(e), gaps, tail)
  }

  /** From the header to the form: a catalogue whose header spells tree `e` selects, for the count `n`, the form
      numbered by `e`'s value. */
  method SelectForm(e: Expr, gaps: seq<string>, tail: string, before: string, spaces: string, nplurals: nat,
                    between: string, n: nat, trans: string)
    returns (p: nat)
    requires FitsWord(e) && |gaps| == |Tokens(e)| && forall i :: 0 <= i < |gaps| ==> Blanks(gaps[i])
    requires Terminator(tail) && 1 + Need(Write(e, 0)) < YYMAXDEPTH
    requires nplurals < ULONG && (forall i :: 0 <= i < |spaces| ==> IsSpace(spaces[i]))
    requires between != [] ==> !IsDigit(between[0])
    requires var text := HeaderText(before, spaces, nplurals, between, Spelt(e, gaps, tail));
             var number := |before| + 9 + |spaces| + |Decimal(nplurals)|;
      FirstAt(text, "nplurals=", |before|) && FirstAt(text, "plural=", number + |between|)
    requires n < ULONG && !DividesByZero(e, n) && Closed(trans)
    ensures Eval(e, n).Some? && StartsForm(trans, p, ChosenForm(Eval(e, n).value, nplurals, Forms(trans)))
  {
    PrintedParsesBack(e, gaps, tail, YYMAXDEPTH);
    EvalFailsExactly(e, n);
    var expression := Spelt(e, gaps, tail);
    var header := HeaderText(before, spaces, nplurals, between, expression);
    HeaderDeclares(before, spaces, nplurals, between, expression);
    hide Declares, HeaderText, FirstAt, Spelt, LexAll, Parse, UnsignedAt;
    var tree, count := PluralSetup(Some(header));
    p := PluralLookup(Eval(tree, n).value, count, trans);
  }

  lemma HeaderDeclares(before: string, spaces: string, nplurals: nat, between: string, text: string)
    requires nplurals < ULONG && (forall i :: 0 <= i < |spaces| ==> IsSpace(spaces[i]))
    requires between != [] ==> !IsDigit(between[0])
    requires Parse(LexAll(text), YYMAXDEPTH).Accepted?
    ensures var header := HeaderText(before, spaces, nplurals, between, text);
            var j, i := |before|, |before| + 9 + |spaces| + |Decimal(nplurals)| + |between|;
      FirstAt(header, "nplurals=", j) && FirstAt(header, "plural=", i) ==>
        Declares(header, i, j) && header[i + 7..] == text
        && UnsignedAt(header, PastSpaces(header, j + 9)).0 == nplurals
  {
    hide Decimal, FirstAt, LexAll, Parse, UnsignedAt;
    var header := HeaderText(before, spaces, nplurals, between, text);
    HeaderPieces(before, spaces, nplurals, between, text);
    NumberReadBack(header, |before| + 9, |spaces|, nplurals);
  }

  lemma HeaderPieces(before: string, spaces: string, nplurals: nat, between: string, text: string)
    requires (forall i :: 0 <= i < |spaces| ==> IsSpace(spaces[i])) && (between != [] ==> !IsDigit(between[0]))
    ensures var header := HeaderText(before, spaces, nplurals, between, text);
            var start := |before| + 9;
            var end := start + |spaces| + |Decimal(nplurals)|;
      && end + |between| + 7 <= |header| && header[end + |between| + 7..] == text
      && (forall k :: start <= k < start + |spaces| ==> IsSpace(header[k]))
      && header[start + |spaces|..end] == Decimal(nplurals) && !IsDigit(header[end])
  {
    hide Decimal, IsSpace, IsDigit;
    var front, rest := before + "nplurals=", between + ("plural=" + text);
    assert HeaderText(before, spaces, nplurals, between, text) == front + spaces + Decimal(nplurals) + rest by {
      Grouped(before + "nplurals=" + spaces + Decimal(nplurals), between, "plural=", text);
    }
    Pieces(front, spaces, Decimal(nplurals), rest);
    Pieces(front + spaces + Decimal(nplurals), between, "plural=", text);
    Grouped(front + spaces + Decimal(nplurals), between, "plural=", text);
    KeyIsNoDigit();
    assert rest[0] == if between != [] then between[0] else "plural="[0];
  }

  lemma KeyIsNoDigit()
    ensures |"nplurals="| == 9 && |"plural="| == 7 && !IsDigit("plural="[0])
  {
  }

  lemma Grouped(a: string, b: string, c: string, d: string)
    ensures a + b + c + d == a + (b + (c + d))
  {
  }

  lemma Pieces(front: string, middle: string, next: string, rest: string)
    ensures var s := front + middle + next + rest;
            var i := |front| + |middle|;
      && (forall k :: |front| <= k < i ==> s[k] == middle[k - |front|])
      && s[i..i + |next|] == next && s[i + |next|..] == rest
      && (rest != [] ==> s[i + |next|] == rest[0])
  {
  }
}
