/** Finding the number of plural forms and the expression in a catalogue's header (intl/loadmsgcat.c:492-530), with the
    functions of the C library it uses: `strstr`, `isspace` in the "C" locale and `strtoul` in base 10. Strings are
    given without their closing NUL. */
module PluralHeader {
  import opened PluralLexer
  import opened Wrappers

  // ----- strstr -----

  predicate Occurs(s: string, word: string, i: nat) {
    i + |word| <= |s| && s[i..i + |word|] == word
  }

  ghost predicate FirstAt(s: string, word: string, i: nat) {
    Occurs(s, word, i) && forall k: nat :: k < i ==> !Occurs(s, word, k)
  }

  ghost predicate Absent(s: string, word: string) {
    forall k: nat :: !Occurs(s, word, k)
  }

  method StrStr(s: string, word: string) returns (r: Option<nat>)
    ensures r.Some? ==> FirstAt(s, word, r.value)
    ensures r.None? ==> Absent(s, word)
  {
    var i := 0;
    while i + |word| <= |s|
      invariant forall k: nat :: k < i ==> !Occurs(s, word, k)
    {
      if s[i..i + |word|] == word {
        return Some(i);
      }
      i := i + 1;
    }
    return None;
  }

  lemma FirstIsUnique(s: string, word: string, i: nat, j: nat)
    requires FirstAt(s, word, i) && FirstAt(s, word, j)
    ensures i == j
  {
    assert Occurs(s, word, i) && Occurs(s, word, j);
  }

  // ----- strtoul -----

  predicate IsSpace(c: char) {
    c == ' ' || '\t' <= c <= '\r'
  }

  /** Space, tab, newline, vertical tab, form feed and carriage return. */
  lemma SpaceIs(c: char)
    ensures IsSpace(c) <==> c in " \t\n\U{0B}\U{0C}\r"
  {
    var s := " \t\n\U{0B}\U{0C}\r";
    assert s[0] == ' ' && s[1] == '\t' && s[2] == '\n' && s[3] == '\U{0B}' && s[4] == '\U{0C}' && s[5] == '\r';
  }

  function PastSpaces(s: string, i: nat): (j: nat)
    requires i <= |s|
    ensures i <= j <= |s| && (j < |s| ==> !IsSpace(s[j])) && forall k :: i <= k < j ==> IsSpace(s[k])
    decreases |s| - i
  {
    if i < |s| && IsSpace(s[i]) then PastSpaces(s, i + 1) else i
  }

  function PastDigits(s: string, i: nat): (j: nat)
    requires i <= |s|
    ensures i <= j <= |s| && (j < |s| ==> !IsDigit(s[j])) && forall k :: i <= k < j ==> IsDigit(s[k])
    decreases |s| - i
  {
    if i < |s| && IsDigit(s[i]) then PastDigits(s, i + 1) else i
  }

  predicate AllDigits(x: string) {
    forall i :: 0 <= i < |x| ==> IsDigit(x[i])
  }

  /** What the digits mean, without bound. */
  function Value(x: string): nat
    requires AllDigits(x)
  {
    if x == [] then 0 else Value(x[..|x| - 1]) * 10 + DigitValue(x[|x| - 1])
  }

  predicate Signed(s: string, i: nat) {
    i < |s| && (s[i] == '-' || s[i] == '+')
  }

  /** The number that begins at `start`, and where it ends; no number ends where it began. What does not fit into the
      word becomes the greatest one, and a minus sign negates modulo the word. */
  function UnsignedAt(s: string, start: nat): (r: (nat, nat))
    requires start <= |s|
    ensures r.0 < ULONG && start <= r.1 <= |s|
  {
    var i := PastSpaces(s, start);
    var j := if Signed(s, i) then i + 1 else i;
    var k := PastDigits(s, j);
    if k == j then (0, start) else (Converted(Value(s[j..k]), i < |s| && s[i] == '-'), k)
  }

  function Converted(v: nat, negative: bool): (n: nat)
    ensures n < ULONG
  {
    if v >= ULONG then ULONG - 1 else if negative && v > 0 then ULONG - v else v
  }

  lemma OneMoreDigit(s: string, j: nat, k: nat)
    requires j <= k < |s| && AllDigits(s[j..k]) && IsDigit(s[k])
    ensures AllDigits(s[j..k + 1]) && Value(s[j..k + 1]) == Value(s[j..k]) * 10 + DigitValue(s[k])
  {
    var x := s[j..k + 1];
    assert x[..|x| - 1] == s[j..k] && x[|x| - 1] == s[k];
  }

  lemma PastDigitsFrom(s: string, j: nat, k: nat)
    requires j <= k <= |s| && AllDigits(s[j..k])
    ensures PastDigits(s, j) == PastDigits(s, k)
    decreases k - j
  {
    if j < k {
      assert s[j..k][0] == s[j] && s[j..k][1..] == s[j + 1..k];
      PastDigitsFrom(s, j + 1, k);
    }
  }

  /** The loop accumulates as long as the number fits, and then only looks for the end. */
  method StrToUl(s: string, start: nat) returns (n: nat, end: nat)
    requires start <= |s|
    ensures (n, end) == UnsignedAt(s, start)
  {
    hide Value;
    var i := SkipSpaces(s, start);
    var negative := i < |s| && s[i] == '-';
    var j := if Signed(s, i) then i + 1 else i;
    var k := j;
    var v: nat, overflow := 0, false;
    NoDigits();
    assert s[j..j] == [];
    while k < |s| && IsDigit(s[k])
      invariant j <= k <= |s| && AllDigits(s[j..k])
      invariant if overflow then Value(s[j..k]) >= ULONG else v == Value(s[j..k]) < ULONG
    {
      OneMoreDigit(s, j, k);
      if v * 10 + DigitValue(s[k]) >= ULONG {
        overflow := true;
      } else if !overflow {
        v := v * 10 + DigitValue(s[k]);
      }
      k := k + 1;
    }
    PastDigitsFrom(s, j, k);
    if k == j {
      return 0, start;
    }
    n := if overflow then ULONG - 1 else if negative && v > 0 then ULONG - v else v;
    end := k;
  }

  lemma NoDigits()
    ensures Value([]) == 0
  {
  }

  method SkipSpaces(s: string, start: nat) returns (i: nat)
    requires start <= |s|
    ensures i == PastSpaces(s, start)
  {
    i := start;
    while i < |s| && IsSpace(s[i])
      invariant start <= i <= |s| && PastSpaces(s, start) == PastSpaces(s, i)
    {
      i := i + 1;
    }
  }

  // ----- a number that was written -----

  lemma {:induction false} DecimalMeans(n: nat)
    ensures AllDigits(Decimal(n)) && Value(Decimal(n)) == n
  {
    if n >= 10 {
      DecimalMeans(n / 10);
      var c := (n % 10 + '0' as int) as char;
      assert Decimal(n)[..|Decimal(n)| - 1] == Decimal(n / 10) && Decimal(n)[|Decimal(n)| - 1] == c;
    } else {
      assert Decimal(n)[..0] == [];
    }
  }

  lemma SpacesPassed(s: string, i: nat, j: nat)
    requires i <= j <= |s| && (forall k :: i <= k < j ==> IsSpace(s[k])) && (j < |s| ==> !IsSpace(s[j]))
    ensures PastSpaces(s, i) == j
    decreases j - i
  {
    if i < j {
      SpacesPassed(s, i + 1, j);
    }
  }

  /** A number in decimal is read back, behind any spaces. */
  lemma NumberReadBack(s: string, start: nat, spaces: nat, n: nat)
    requires n < ULONG && start + spaces + |Decimal(n)| <= |s|
    requires forall k :: start <= k < start + spaces ==> IsSpace(s[k])
    requires var i := start + spaces;
      s[i..i + |Decimal(n)|] == Decimal(n) && (i + |Decimal(n)| < |s| ==> !IsDigit(s[i + |Decimal(n)|]))
    ensures PastSpaces(s, start) == start + spaces
    ensures UnsignedAt(s, start + spaces) == (n, start + spaces + |Decimal(n)|)
  {
    hide Decimal, Value;
    DecimalMeans(n);
    var i := start + spaces;
    var k := i + |Decimal(n)|;
    assert s[i] == s[i..k][0];
    SpacesPassed(s, start, i);
    SpacesPassed(s, i, i);
    PastDigitsFrom(s, i, k);
  }

  /** A sign in front of a number, and a number that does not fit the word. */
  lemma SignedReadBack(n: nat)
    ensures UnsignedAt(Decimal(n), 0) == (if n < ULONG then n else ULONG - 1, |Decimal(n)|)
    ensures UnsignedAt("+" + Decimal(n), 0) == (if n < ULONG then n else ULONG - 1, 1 + |Decimal(n)|)
    ensures UnsignedAt("-" + Decimal(n), 0)
         == (if n == 0 then 0 else if n < ULONG then ULONG - n else ULONG - 1, 1 + |Decimal(n)|)
  {
    hide Decimal, Value;
    DecimalMeans(n);
    DigitsAfter("", n);
    DigitsAfter("+", n);
    DigitsAfter("-", n);
    assert "" + Decimal(n) == Decimal(n);
  }

  lemma DigitsAfter(sign: string, n: nat)
    requires sign == "" || sign == "+" || sign == "-"
    ensures var s, j := sign + Decimal(n), |sign|;
      && PastSpaces(s, 0) == 0 && PastDigits(s, j) == |s| && s[j..|s|] == Decimal(n) && !Signed(Decimal(n), 0)
      && (sign != "" ==> s[0] == sign[0]) && (sign == "" ==> s[0] == Decimal(n)[0])
  {
    hide Decimal, Value;
    DecimalMeans(n);
    var s, j := sign + Decimal(n), |sign|;
    assert s[j..|s|] == Decimal(n);
    PastDigitsFrom(s, j, |s|);
    assert IsDigit(Decimal(n)[0]);
  }
}
