/** `hash_string` of intl/hash-string.h, on a 32-bit `unsigned long`; words are numbers below 2 to the 32. */
module HashString {
  import opened Arithmetic
  import opened BitMasks

  const WORD: nat := 0x1_0000_0000
  const TOP: nat := 0x1000_0000

  type char8 = c: nat | c < 0x100

  /** Bitwise exclusive or. */
  function Xor(x: nat, y: nat): nat {
    if x == 0 then y
    else if y == 0 then x
    else (if x % 2 != y % 2 then 1 else 0) + 2 * Xor(x / 2, y / 2)
  }

  /** A `char` widened to `unsigned long`: plain `char` is signed. */
  function Widen(c: char8): nat {
    if c < 0x80 then c else c + 0xffff_ff00
  }

  /** One round: shift the next character in and fold the top four bits back. */
  function Round(hval: nat, c: char8): nat {
    var h := (hval * 0x10 + Widen(c)) % WORD;
    var g := And(h, 0xf000_0000);
    if g != 0 then Xor(Xor(h, g / 0x100_0000), g) else h
  }

  function Hash(str: seq<char8>): nat {
    if str == [] then 0 else Round(Hash(str[..|str| - 1]), str[|str| - 1])
  }

  /** The loop over the characters. */
  method HashLoop(str: seq<char8>) returns (hval: nat)
    ensures hval == Hash(str)
  {
    hide Round;
    hval := 0;
    for i := 0 to |str|
      invariant hval == Hash(str[..i])
    {
      hval := Round(hval, str[i]);
      assert str[..i + 1][..i] == str[..i];
    }
    assert str[..|str|] == str;
  }

  // ----- what the number is -----

  lemma XorBit(a: bit, x: nat, b: bit, y: nat)
    ensures Xor(a + 2 * x, b + 2 * y) == (if a == b then 0 else 1) + 2 * Xor(x, y)
  {
    XorNothing(x);
    XorNothing(y);
  }

  lemma XorNothing(x: nat)
    ensures Xor(x, 0) == x && Xor(0, x) == x
  {
  }

  /** Exclusive or of a nibble and nothing above it. */
  lemma XorLow(a: bit, b: bit, c: bit, d: bit, x: nat, m: bit, n: bit, o: bit, p: bit)
    ensures Xor(Nibble(a, b, c, d) + 16 * x, Nibble(m, n, o, p)) == Xor(Nibble(a, b, c, d), Nibble(m, n, o, p)) + 16 * x
    ensures Xor(Nibble(a, b, c, d), Nibble(m, n, o, p)) < 16
  {
    hide Xor;
    XorNothing(x);
    XorNothing(0);
    XorBits(a, b, c, d, x, m, n, o, p, 0);
    XorBits(a, b, c, d, 0, m, n, o, p, 0);
  }

  function Differ(a: bit, b: bit): bit {
    if a == b then 0 else 1
  }

  lemma XorBits(a: bit, b: bit, c: bit, d: bit, x: nat, m: bit, n: bit, o: bit, p: bit, y: nat)
    ensures Xor(Nibble(a, b, c, d) + 16 * x, Nibble(m, n, o, p) + 16 * y)
         == Nibble(Differ(a, m), Differ(b, n), Differ(c, o), Differ(d, p)) + 16 * Xor(x, y)
  {
    hide Xor;
    XorBit(a, b + 2 * (c + 2 * (d + 2 * x)), m, n + 2 * (o + 2 * (p + 2 * y)));
    XorBit(b, c + 2 * (d + 2 * x), n, o + 2 * (p + 2 * y));
    XorBit(c, d + 2 * x, o, p + 2 * y);
    XorBit(d, x, p, y);
  }

  lemma XorNibble(v: nat, x: nat, w: nat)
    requires v < 16 && w < 16
    ensures Xor(v + 16 * x, w) == Xor(v, w) + 16 * x && Xor(v, w) < 16
  {
    hide Xor, Bit0, Bit1, Bit2, Bit3, Nibble;
    NibbleBits(v);
    NibbleBits(w);
    XorLow(Bit0(v), Bit1(v), Bit2(v), Bit3(v), x, Bit0(w), Bit1(w), Bit2(w), Bit3(w));
  }

  /** A nibble of zeros on one side lets the other side's nibble through. */
  lemma XorThrough(v: nat, x: nat, y: nat)
    requires v < 16
    ensures Xor(v + 16 * x, 16 * y) == v + 16 * Xor(x, y)
  {
    hide Xor, Bit0, Bit1, Bit2, Bit3, Nibble;
    NibbleBits(v);
    XorOfBits(Bit0(v), Bit1(v), Bit2(v), Bit3(v), x, y);
  }

  lemma XorOfBits(a: bit, b: bit, c: bit, d: bit, x: nat, y: nat)
    ensures Xor(Nibble(a, b, c, d) + 16 * x, 16 * y) == Nibble(a, b, c, d) + 16 * Xor(x, y)
  {
    hide Xor;
    XorBit(a, b + 2 * (c + 2 * (d + 2 * x)), 0, 8 * y);
    XorBit(b, c + 2 * (d + 2 * x), 0, 4 * y);
    XorBit(c, d + 2 * x, 0, 2 * y);
    XorBit(d, x, 0, y);
  }

  /** A word by its nibbles: the lowest, the next one, the five up to bit 28, and the four bits above. */
  function Split(low: nat, next: nat, c: nat, d: nat, e: nat, f: nat, g: nat, top: nat): nat {
    low + 0x10 * (next + 0x10 * (c + 0x10 * (d + 0x10 * (e + 0x10 * (f + 0x10 * (g + 0x10 * top))))))
  }

  lemma TopBits(low: nat, next: nat, c: nat, d: nat, e: nat, f: nat, g: nat, top: nat)
    requires low < 16 && next < 16 && c < 16 && d < 16 && e < 16 && f < 16 && g < 16 && top < 16
    ensures And(Split(low, next, c, d, e, f, g, top), 0xf000_0000) == TOP * top
  {
    hide And;
    var t6 := g + 16 * top;
    var t5 := f + 16 * t6;
    var t4 := e + 16 * t5;
    var t3 := d + 16 * t4;
    var t2 := c + 16 * t3;
    var t1 := next + 16 * t2;
    AndWhole(low, t1, 0xf00_0000);
    AndWhole(next, t2, 0xf0_0000);
    AndWhole(c, t3, 0xf_0000);
    AndWhole(d, t4, 0xf000);
    AndWhole(e, t5, 0xf00);
    AndWhole(f, t6, 0xf0);
    AndWhole(g, top, 0xf);
    AndWhole(top, 0, 0);
    AndZero(0);
  }

  /** Folding back: the four bits at the top go, and change the four bits above the lowest. */
  function Folded(x: nat): nat {
    var top, rest := x / TOP, x % TOP;
    if top == 0 then rest else rest - rest / 0x10 % 0x10 * 0x10 + Xor(rest / 0x10 % 0x10, top) * 0x10
  }

  lemma XorSelf(x: nat)
    ensures Xor(x, x) == 0
  {
  }

  lemma FoldParts(low: nat, next: nat, c: nat, d: nat, e: nat, f: nat, g: nat, top: nat)
    requires low < 16 && next < 16 && c < 16 && d < 16 && e < 16 && f < 16 && g < 16 && top < 16
    ensures var h := Split(low, next, c, d, e, f, g, top);
      Xor(Xor(h, 0x10 * top), TOP * top) == Split(low, Xor(next, top), c, d, e, f, g, 0) && Xor(next, top) < 16
  {
    hide Xor;
    var above := Split(c, d, e, f, g, top, 0, 0);
    XorThrough(low, next + 16 * above, top);
    XorNibble(next, above, top);
    ClearTop(low, Xor(next, top), c, d, e, f, g, top);
  }

  lemma ClearTop(low: nat, next: nat, c: nat, d: nat, e: nat, f: nat, g: nat, top: nat)
    requires low < 16 && next < 16 && c < 16 && d < 16 && e < 16 && f < 16 && g < 16 && top < 16
    ensures Xor(Split(low, next, c, d, e, f, g, top), TOP * top) == Split(low, next, c, d, e, f, g, 0)
  {
    hide Xor;
    var t6 := g + 16 * top;
    var t5 := f + 16 * t6;
    var t4 := e + 16 * t5;
    var t3 := d + 16 * t4;
    var t2 := c + 16 * t3;
    var t1 := next + 16 * t2;
    XorThrough(low, t1, 0x100_0000 * top);
    XorThrough(next, t2, 0x10_0000 * top);
    XorThrough(c, t3, 0x1_0000 * top);
    XorThrough(d, t4, 0x1000 * top);
    XorThrough(e, t5, 0x100 * top);
    XorThrough(f, t6, 0x10 * top);
    XorThrough(g, top, top);
    XorSelf(top);
  }

  /** The nibbles of a word. */
  lemma Nibbles(h: nat) returns (low: nat, next: nat, c: nat, d: nat, e: nat, f: nat, g: nat, top: nat)
    requires h < WORD
    ensures low < 16 && next < 16 && c < 16 && d < 16 && e < 16 && f < 16 && g < 16 && top < 16
    ensures h == Split(low, next, c, d, e, f, g, top) && next == h / 0x10 % 0x10
    ensures h / TOP == top && h % TOP == Split(low, next, c, d, e, f, g, 0)
  {
    var r1, r2, r3, r4, r5, r6;
    low, r1 := h % 16, h / 16;
    next, r2 := r1 % 16, r1 / 16;
    c, r3 := r2 % 16, r2 / 16;
    d, r4 := r3 % 16, r3 / 16;
    e, r5 := r4 % 16, r4 / 16;
    f, r6 := r5 % 16, r5 / 16;
    g, top := r6 % 16, r6 / 16;
    RemainderIs(h, top, Split(low, next, c, d, e, f, g, 0), TOP);
  }

  /** One more character multiplies by 16 and adds it, as signed; what passes 28 bits is folded back. */
  lemma OneMoreCharacter(str: seq<char8>, c: char8)
    ensures Hash(str + [c]) == Folded((16 * Hash(str) + if c < 0x80 then c else c - 0x100) % WORD)
    ensures Hash(str + [c]) < TOP
  {
    assert (str + [c])[..|str|] == str;
    hide Hash, And, Xor, Folded;
    RoundIsFolded(Hash(str), c);
  }

  lemma RoundIsFolded(hval: nat, c: char8)
    ensures Round(hval, c) == Folded((16 * hval + if c < 0x80 then c else c - 0x100) % WORD) < TOP
  {
    var h := (hval * 0x10 + Widen(c)) % WORD;
    WidenIsSigned(hval, c);
    FoldIsXor(h);
    hide And, Xor, Widen, Folded;
  }

  lemma FoldIsXor(h: nat)
    requires h < WORD
    ensures var g := And(h, 0xf000_0000);
      Folded(h) == (if g != 0 then Xor(Xor(h, g / 0x100_0000), g) else h) < TOP
  {
    hide And, Xor;
    var low, next, c1, d, e, f, g, top := Nibbles(h);
    TopBits(low, next, c1, d, e, f, g, top);
    FoldParts(low, next, c1, d, e, f, g, top);
    RestSplit(low, next, c1, d, e, f, g, Xor(next, top));
  }

  lemma WidenIsSigned(hval: nat, c: char8)
    ensures (hval * 0x10 + Widen(c)) % WORD == (16 * hval + if c < 0x80 then c else c - 0x100) % WORD
  {
    if c >= 0x80 {
      AddMultiple(16 * hval + c - 0x100, 1, WORD);
    }
  }

  lemma RestSplit(low: nat, next: nat, c: nat, d: nat, e: nat, f: nat, g: nat, other: nat)
    requires low < 16 && next < 16 && c < 16 && d < 16 && e < 16 && f < 16 && g < 16 && other < 16
    ensures Split(low, next, c, d, e, f, g, 0) / 0x10 % 0x10 == next
    ensures Split(low, other, c, d, e, f, g, 0) == Split(low, next, c, d, e, f, g, 0) - next * 0x10 + other * 0x10 < TOP
  {
  }

  /** The hash never uses the top four bits, so the next shift loses nothing. */
  lemma HashIs28Bits(str: seq<char8>)
    ensures Hash(str) < TOP
  {
    hide Round;
    if str != [] {
      RoundIsFolded(Hash(str[..|str| - 1]), str[|str| - 1]);
    }
  }

  /** The characters as the digits of a number to the base 16. */
  function Digits(str: seq<char8>): nat {
    if str == [] then 0 else str[0] * Power(|str| - 1) + Digits(str[1..])
  }

  function Power(n: nat): nat {
    if n == 0 then 1 else 16 * Power(n - 1)
  }

  lemma {:induction false} DigitsOneMore(str: seq<char8>, c: char8)
    ensures Digits(str + [c]) == 16 * Digits(str) + c
  {
    if str == [] {
      assert [c][1..] == [];
    } else {
      assert (str + [c])[1..] == str[1..] + [c];
      DigitsOneMore(str[1..], c);
    }
  }

  lemma {:induction false} DigitsBelow(str: seq<char8>)
    requires forall i :: 0 <= i < |str| ==> str[i] < 0x80
    ensures Digits(str) * 15 <= 127 * (Power(|str|) - 1)
  {
    if str != [] {
      DigitsBelow(str[1..]);
      Grows(str[0], 127, Power(|str| - 1));
    }
  }

  lemma PowerGrows(k: nat, n: nat)
    requires k <= n
    ensures Power(k) <= Power(n)
  {
    if k < n {
      PowerGrows(k, n - 1);
    }
  }

  /** Up to six ASCII characters are read as digits; nothing is folded. */
  lemma {:induction false} ShortHash(str: seq<char8>)
    requires |str| <= 6 && forall i :: 0 <= i < |str| ==> str[i] < 0x80
    ensures Hash(str) == Digits(str)
  {
    if str != [] {
      hide Hash, Digits, Folded;
      var before, c := str[..|str| - 1], str[|str| - 1];
      assert before + [c] == str;
      ShortHash(before);
      OneMoreCharacter(before, c);
      DigitsOneMore(before, c);
      SixDigits(str);
      NothingFolded(Digits(str));
    }
  }

  lemma SixDigits(str: seq<char8>)
    requires |str| <= 6 && forall i :: 0 <= i < |str| ==> str[i] < 0x80
    ensures Digits(str) < TOP
  {
    DigitsBelow(str);
    PowerGrows(|str|, 6);
    assert Power(3) == 0x1000;
    assert Power(6) == 0x100_0000;
    hide Digits, Power;
  }

  lemma NothingFolded(x: nat)
    requires x < TOP
    ensures Folded(x % WORD) == x
  {
  }

  /** The bytes of a string. */
  function Bytes(s: string): (r: seq<char8>)
    ensures |r| == |s|
  {
    seq(|s|, i requires 0 <= i < |s| => s[i] as int % 0x100)
  }

  /** The hash value of a string. */
  function HashValue(s: string): nat {
    Hash(Bytes(s))
  }

  lemma HashNext(str: seq<char8>, hval: nat, c: char8)
    requires Hash(str) == hval
    ensures Hash(str + [c]) == Folded((16 * hval + if c < 0x80 then c else c - 0x100) % WORD)
  {
    hide Hash, Folded;
    OneMoreCharacter(str, c);
  }

  lemma HashOfShort()
    ensures HashValue("") == 0 && HashValue("AB") == 65 * 16 + 66 && HashValue("AG") == 65 * 16 + 71
  {
    assert Bytes("AB") == [65, 66] && Bytes("AG") == [65, 71];
    assert [65, 66][1..] == [66] && [65, 71][1..] == [71] && [66][1..] == [] && [71][1..] == [];
    ShortHash([65, 66]);
    ShortHash([65, 71]);
    assert Power(1) == 16;
  }

  lemma HashGrows(str: seq<char8>, n: nat, hval: nat)
    requires n < |str| && Hash(str[..n]) == hval && str[n] < 0x80
    ensures Hash(str[..n + 1]) == Folded((16 * hval + str[n]) % WORD)
    ensures 16 * hval + str[n] < TOP ==> Hash(str[..n + 1]) == 16 * hval + str[n]
  {
    hide Hash, Folded;
    assert str[..n] + [str[n]] == str[..n + 1];
    HashNext(str[..n], hval, str[n]);
    if 16 * hval + str[n] < TOP {
      NothingFolded(16 * hval + str[n]);
    }
  }

  /** The letters from A on. */
  predicate Alphabet(str: seq<char8>) {
    forall i :: 0 <= i < |str| && i < 26 ==> str[i] == 65 + i
  }

  lemma HashOfSix(str: seq<char8>)
    requires Alphabet(str) && |str| >= 6
    ensures Hash(str[..6]) == 0x456_7896
  {
    assert Hash(str[..0]) == 0;
    hide Hash, Folded;
    HashGrows(str, 0, 0);
    HashGrows(str, 1, 0x41);
    HashGrows(str, 2, 0x452);
    HashGrows(str, 3, 0x4563);
    HashGrows(str, 4, 0x45674);
    HashGrows(str, 5, 0x45_6785);
  }

  lemma FoldsTwice()
    ensures Folded(0x4567_89A7) == 0x567_89E7 && Folded(0x5678_9EB8) == 0x678_9EE8
  {
    Differences();
    hide Xor;
    assert 0x4567_89A7 / TOP == 4 && 0x4567_89A7 % TOP == 0x567_89A7 && 0x567_89A7 / 0x10 % 0x10 == 0xA;
    assert 0x5678_9EB8 / TOP == 5 && 0x5678_9EB8 % TOP == 0x678_9EB8 && 0x678_9EB8 / 0x10 % 0x10 == 0xB;
  }

  lemma Differences()
    ensures Xor(0xA, 4) == 0xE && Xor(0xB, 5) == 0xE
  {
    assert Xor(2, 1) == 3;
    assert Xor(5, 2) == 7;
  }

  /** Eight letters, of which the first two are folded back; and a character that counts as negative. */
  lemma HashOfLong()
    ensures Hash([65, 66, 67, 68, 69, 70, 71, 72]) == 0x678_9EE8
    ensures Hash([0x61, 0xe4]) == 0x61 * 16 - 28
  {
    hide Hash, Folded, Xor;
    var str: seq<char8> := [65, 66, 67, 68, 69, 70, 71, 72];
    HashOfEight(str);
    assert str[..8] == str;
    HashOfNegative();
  }

  lemma HashOfEight(str: seq<char8>)
    requires Alphabet(str) && |str| == 8
    ensures Hash(str[..8]) == 0x678_9EE8
  {
    hide Hash, Folded;
    HashOfSix(str);
    FoldsTwice();
    HashGrows(str, 6, 0x456_7896);
    HashGrows(str, 7, 0x567_89E7);
  }

  lemma HashOfNegative()
    ensures Hash([0x61, 0xe4]) == 0x61 * 16 - 28
  {
    ShortHash([0x61]);
    assert Digits([0x61]) == 0x61;
    hide Hash, Digits, Folded;
    assert [0x61, 0xe4] == [0x61] + [0xe4];
    HashNext([0x61], 0x61, 0xe4);
    NothingFolded(0x61 * 16 - 28);
  }
}
