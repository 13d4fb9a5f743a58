/** Small bit masks as numbers: bitwise and, submasks, and the bit count of intl/l10nflist.c. */
module BitMasks {

  /** Bitwise and. */
  function And(x: nat, y: nat): nat {
    if x == 0 || y == 0 then 0 else (if x % 2 == 1 && y % 2 == 1 then 1 else 0) + 2 * And(x / 2, y / 2)
  }

  function BitCount(x: nat): nat {
    if x == 0 then 0 else x % 2 + BitCount(x / 2)
  }

  function Pow2(n: nat): (r: nat)
    ensures r > 0
  {
    if n == 0 then 1 else 2 * Pow2(n - 1)
  }

  // The four lines of `pop`: add the bits pairwise, then by fours, eights and sixteens.

  function Line1(x: nat): nat {
    And(x, 0xffff_aaaa) / 2 + And(x, 0x5555)
  }

  function Line2(x: nat): nat {
    And(x, 0xffff_cccc) / 4 + And(x, 0x3333)
  }

  function Line3(x: nat): nat {
    And(x / 16 + x, 0x0f0f)
  }

  function Line4(x: nat): nat {
    And(x / 256 + x, 0xff)
  }

  /** `pop`. */
  function Pop(x: nat): nat {
    Line4(Line3(Line2(Line1(x))))
  }

  type bit = b: nat | b < 2

  lemma AndBit(a: bit, x: nat, b: bit, y: nat)
    ensures And(a + 2 * x, b + 2 * y) == (if a == 1 && b == 1 then 1 else 0) + 2 * And(x, y)
  {
  }

  function Nibble(a: bit, b: bit, c: bit, d: bit): nat {
    a + 2 * b + 4 * c + 8 * d
  }

  function Both(a: bit, b: bit): bit {
    if a == 1 && b == 1 then 1 else 0
  }

  /** Bitwise and works on the low nibble and on the rest separately. */
  lemma AndNibble(a: bit, b: bit, c: bit, d: bit, x: nat, m: bit, n: bit, o: bit, p: bit, y: nat)
    ensures And(Nibble(a, b, c, d) + 16 * x, Nibble(m, n, o, p) + 16 * y)
         == Nibble(Both(a, m), Both(b, n), Both(c, o), Both(d, p)) + 16 * And(x, y)
  {
    hide And;
    AndBit(a, b + 2 * (c + 2 * (d + 2 * x)), m, n + 2 * (o + 2 * (p + 2 * y)));
    AndBit(b, c + 2 * (d + 2 * x), n, o + 2 * (p + 2 * y));
    AndBit(c, d + 2 * x, o, p + 2 * y);
    AndBit(d, x, p, y);
  }

  lemma TwoBits(p: nat) returns (a: bit, b: bit)
    requires p < 4
    ensures p == a + 2 * b
  {
    if p < 2 {
      a, b := p, 0;
    } else {
      a, b := p - 2, 1;
    }
  }

  lemma AndFields(p: nat, q: nat, x: nat, y: nat)
    requires p < 4 && q < 4
    ensures And(p + 4 * q + 16 * x, 3 + 16 * y) == p + 16 * And(x, y)
    ensures And(p + 4 * q + 16 * x, 12 + 16 * y) == 4 * q + 16 * And(x, y)
  {
    hide And;
    var a, b := TwoBits(p);
    var c, d := TwoBits(q);
    AndNibble(a, b, c, d, x, 1, 1, 0, 0, y);
    AndNibble(a, b, c, d, x, 0, 0, 1, 1, y);
  }

  lemma AndZero(y: nat)
    ensures And(0, y) == 0 && And(y, 0) == 0
  {
  }

  function Bit3(v: nat): nat {
    if v >= 8 then 1 else 0
  }

  function Bit2(v: nat): nat {
    if v - 8 * Bit3(v) >= 4 then 1 else 0
  }

  function Bit1(v: nat): nat {
    if v - 8 * Bit3(v) - 4 * Bit2(v) >= 2 then 1 else 0
  }

  function Bit0(v: nat): nat {
    if v == 8 * Bit3(v) + 4 * Bit2(v) + 2 * Bit1(v) then 0 else 1
  }

  lemma NibbleBits(v: nat)
    requires v < 16
    ensures Bit0(v) < 2 && Bit1(v) < 2 && Bit2(v) < 2 && Bit3(v) < 2
    ensures v == Nibble(Bit0(v), Bit1(v), Bit2(v), Bit3(v))
  {
  }

  /** Bits 0 and 2 of a nibble, in their places. */
  function Evens(v: nat): nat {
    Bit0(v) + 4 * Bit2(v)
  }

  /** Bits 1 and 3 of a nibble, in their places. */
  function Odds(v: nat): nat {
    2 * Bit1(v) + 8 * Bit3(v)
  }

  /** Number of ones in the lower and in the upper half of a nibble. */
  function Low(v: nat): nat {
    Bit0(v) + Bit1(v)
  }

  function High(v: nat): nat {
    Bit2(v) + Bit3(v)
  }

  lemma AndPairsOfBits(a: bit, b: bit, c: bit, d: bit, x: nat, y: nat)
    ensures And(Nibble(a, b, c, d) + 16 * x, 5 + 16 * y) == a + 4 * c + 16 * And(x, y)
    ensures And(Nibble(a, b, c, d) + 16 * x, 10 + 16 * y) == 2 * b + 8 * d + 16 * And(x, y)
  {
    hide And;
    AndNibble(a, b, c, d, x, 1, 0, 1, 0, y);
    AndNibble(a, b, c, d, x, 0, 1, 0, 1, y);
  }

  /** First step of `pop` on one nibble: two two-bit fields. */
  lemma AndPairs(v: nat, x: nat, y: nat)
    requires v < 16
    ensures And(v + 16 * x, 5 + 16 * y) == Evens(v) + 16 * And(x, y)
    ensures And(v + 16 * x, 10 + 16 * y) == Odds(v) + 16 * And(x, y)
  {
    hide And, Bit0, Bit1, Bit2, Bit3, Nibble;
    NibbleBits(v);
    AndPairsOfBits(Bit0(v), Bit1(v), Bit2(v), Bit3(v), x, y);
  }

  /** A nibble under a mask of all ones stays, under a mask of zeros it goes. */
  lemma AndOnes(a: bit, b: bit, c: bit, d: bit, x: nat, y: nat)
    ensures And(Nibble(a, b, c, d) + 16 * x, Nibble(1, 1, 1, 1) + 16 * y) == Nibble(a, b, c, d) + 16 * And(x, y)
  {
    hide And, Nibble;
    AndNibble(a, b, c, d, x, 1, 1, 1, 1, y);
    assert Both(a, 1) == a && Both(b, 1) == b && Both(c, 1) == c && Both(d, 1) == d;
  }

  lemma AndNone(a: bit, b: bit, c: bit, d: bit, x: nat, y: nat)
    ensures And(Nibble(a, b, c, d) + 16 * x, Nibble(0, 0, 0, 0) + 16 * y) == Nibble(0, 0, 0, 0) + 16 * And(x, y)
  {
    hide And, Nibble;
    AndNibble(a, b, c, d, x, 0, 0, 0, 0, y);
    assert Both(a, 0) == 0 && Both(b, 0) == 0 && Both(c, 0) == 0 && Both(d, 0) == 0;
  }

  lemma AndKeeps(n: nat, x: nat, y: nat)
    requires n < 16
    ensures And(n + 16 * x, 15 + 16 * y) == n + 16 * And(x, y)
  {
    OnesAndNone();
    hide And, Bit0, Bit1, Bit2, Bit3, Nibble;
    NibbleBits(n);
    AndOnes(Bit0(n), Bit1(n), Bit2(n), Bit3(n), x, y);
  }

  lemma AndClears(n: nat, x: nat, y: nat)
    requires n < 16
    ensures And(n + 16 * x, 16 * y) == 16 * And(x, y)
  {
    OnesAndNone();
    hide And, Bit0, Bit1, Bit2, Bit3, Nibble;
    NibbleBits(n);
    AndNone(Bit0(n), Bit1(n), Bit2(n), Bit3(n), x, y);
  }

  lemma OnesAndNone()
    ensures Nibble(1, 1, 1, 1) == 15 && Nibble(0, 0, 0, 0) == 0
  {
  }

  lemma AndWhole(n: nat, x: nat, y: nat)
    requires n < 16
    ensures And(n + 16 * x, 15 + 16 * y) == n + 16 * And(x, y)
    ensures And(n + 16 * x, 16 * y) == 16 * And(x, y)
  {
    hide And;
    AndKeeps(n, x, y);
    AndClears(n, x, y);
  }

  lemma PairSum(v: nat) returns (half: nat)
    requires v < 16
    ensures Odds(v) == 2 * half && Evens(v) + half == Low(v) + 4 * High(v)
    ensures Low(v) <= 2 && High(v) <= 2
  {
    half := Bit1(v) + 4 * Bit3(v);
  }

  function Word(a: nat, b: nat, c: nat, d: nat): nat {
    a + 16 * b + 256 * c + 4096 * d
  }

  lemma EvenBits(p: nat, q: nat, r: nat, s: nat)
    requires p < 16 && q < 16 && r < 16 && s < 16
    ensures And(Word(p, q, r, s), 0x5555) == Word(Evens(p), Evens(q), Evens(r), Evens(s))
  {
    hide And, Evens, Odds;
    var t1, t2 := q + 16 * r + 256 * s, r + 16 * s;
    AndPairs(p, t1, 0x555);
    AndPairs(q, t2, 0x55);
    AndPairs(r, s, 0x5);
    AndPairs(s, 0, 0);
    AndZero(0);
    assert And(s, 5) == Evens(s);
    assert And(t2, 0x55) == Evens(r) + 16 * And(s, 5);
    assert And(t1, 0x555) == Evens(q) + 16 * And(t2, 0x55);
  }

  lemma OddBits(p: nat, q: nat, r: nat, s: nat)
    requires p < 16 && q < 16 && r < 16 && s < 16
    ensures And(Word(p, q, r, s), 0xffff_aaaa) == Word(Odds(p), Odds(q), Odds(r), Odds(s))
  {
    hide And, Evens, Odds;
    var t1, t2 := q + 16 * r + 256 * s, r + 16 * s;
    AndPairs(p, t1, 0xffff_aaa);
    AndPairs(q, t2, 0xffff_aa);
    AndPairs(r, s, 0xffff_a);
    AndPairs(s, 0, 0xffff);
    AndZero(0xffff);
    assert And(s, 0xffff_a) == Odds(s);
    assert And(t2, 0xffff_aa) == Odds(r) + 16 * And(s, 0xffff_a);
    assert And(t1, 0xffff_aaa) == Odds(q) + 16 * And(t2, 0xffff_aa);
  }

  /** The first line of `pop`. */
  lemma PairStep(p: nat, q: nat, r: nat, s: nat)
    requires p < 16 && q < 16 && r < 16 && s < 16
    ensures Line1(Word(p, q, r, s))
         == Word(Low(p) + 4 * High(p), Low(q) + 4 * High(q), Low(r) + 4 * High(r), Low(s) + 4 * High(s))
  {
    hide And, Evens, Odds, Low, High;
    EvenBits(p, q, r, s);
    OddBits(p, q, r, s);
    var p2 := PairSum(p);
    var q2 := PairSum(q);
    var r2 := PairSum(r);
    var s2 := PairSum(s);
    assert Word(Odds(p), Odds(q), Odds(r), Odds(s)) == 2 * Word(p2, q2, r2, s2);
  }

  /** The second line, on two-bit fields that hold at most 2. */
  lemma FourStep(p: nat, p': nat, q: nat, q': nat, r: nat, r': nat, s: nat, s': nat)
    requires p <= 2 && p' <= 2 && q <= 2 && q' <= 2 && r <= 2 && r' <= 2 && s <= 2 && s' <= 2
    ensures var x := Word(p + 4 * p', q + 4 * q', r + 4 * r', s + 4 * s');
      Line2(x) == Word(p + p', q + q', r + r', s + s')
  {
    hide And;
    var x3 := s + 4 * s';
    var x2 := r + 4 * r' + 16 * x3;
    var x1 := q + 4 * q' + 16 * x2;
    AndFields(p, p', x1, 0x333);
    AndFields(q, q', x2, 0x33);
    AndFields(r, r', x3, 0x3);
    AndFields(s, s', 0, 0);
    AndFields(p, p', x1, 0xffff_ccc);
    AndFields(q, q', x2, 0xffff_cc);
    AndFields(r, r', x3, 0xffff_c);
    AndFields(s, s', 0, 0xffff);
    AndZero(0);
    AndZero(0xffff);
    assert And(p + 4 * p' + 16 * x1, 0xffff_cccc) == 4 * Word(p', q', r', s');
  }

  /** The third line. */
  lemma EightStep(a: nat, b: nat, c: nat, d: nat)
    requires a <= 4 && b <= 4 && c <= 4 && d <= 4
    ensures var x := Word(a, b, c, d);
      Line3(x) == a + b + 256 * (c + d)
  {
    hide And;
    var x := Word(a, b, c, d);
    assert x / 16 == b + 16 * c + 256 * d;
    assert x / 16 + x == (a + b) + 16 * ((b + c) + 16 * ((c + d) + 16 * d));
    AndWhole(a + b, (b + c) + 16 * ((c + d) + 16 * d), 0xf0);
    AndWhole(b + c, (c + d) + 16 * d, 0xf);
    AndWhole(c + d, d, 0);
    AndZero(d);
  }

  /** The last line. */
  lemma LastStep(a: nat, b: nat)
    requires a <= 8 && b <= 8
    ensures Line4(a + 256 * b) == a + b
  {
    hide And;
    assert (a + 256 * b) / 256 == b;
    var s := a + b;
    var lo, hi := if s < 16 then s else 0, if s < 16 then 0 else 1;
    assert s + 256 * b == lo + 16 * (hi + 16 * b);
    AndWhole(lo, hi + 16 * b, 0xf);
    AndWhole(hi, b, 0);
    AndZero(b);
  }

  lemma CountBit(a: bit, x: nat)
    ensures BitCount(a + 2 * x) == a + BitCount(x)
  {
  }

  lemma CountBits(a: bit, b: bit, c: bit, d: bit, x: nat)
    ensures BitCount(Nibble(a, b, c, d) + 16 * x) == a + b + c + d + BitCount(x)
  {
    hide BitCount;
    var z := d + 2 * x;
    var y := c + 2 * z;
    var w := b + 2 * y;
    assert Nibble(a, b, c, d) + 16 * x == a + 2 * w;
    hide Nibble;
    CountBit(a, w);
    CountBit(b, y);
    CountBit(c, z);
    CountBit(d, x);
  }

  lemma CountNibble(v: nat, x: nat)
    requires v < 16
    ensures BitCount(v + 16 * x) == Low(v) + High(v) + BitCount(x)
  {
    hide BitCount, Bit0, Bit1, Bit2, Bit3, Nibble;
    NibbleBits(v);
    CountBits(Bit0(v), Bit1(v), Bit2(v), Bit3(v), x);
  }

  lemma CountWord(p: nat, q: nat, r: nat, s: nat)
    requires p < 16 && q < 16 && r < 16 && s < 16
    ensures BitCount(Word(p, q, r, s)) == Low(p) + High(p) + Low(q) + High(q) + Low(r) + High(r) + Low(s) + High(s)
  {
    assert BitCount(0) == 0;
    hide BitCount, Low, High;
    var t1, t2 := q + 16 * r + 256 * s, r + 16 * s;
    CountNibble(p, t1);
    CountNibble(q, t2);
    CountNibble(r, s);
    CountNibble(s, 0);
    assert Word(p, q, r, s) == p + 16 * t1 && t1 == q + 16 * t2;
  }

  /** `pop` on a word given by its nibbles. */
  lemma PopOfNibbles(p: nat, q: nat, r: nat, s: nat)
    requires p < 16 && q < 16 && r < 16 && s < 16
    ensures Pop(Word(p, q, r, s)) == BitCount(Word(p, q, r, s))
  {
    hide Line1, Line2, Line3, Line4, BitCount, Low, High, Word, Evens, Odds;
    PairStep(p, q, r, s);
    var p2 := PairSum(p);
    var q2 := PairSum(q);
    var r2 := PairSum(r);
    var s2 := PairSum(s);
    FourStep(Low(p), High(p), Low(q), High(q), Low(r), High(r), Low(s), High(s));
    EightStep(Low(p) + High(p), Low(q) + High(q), Low(r) + High(r), Low(s) + High(s));
    LastStep(Low(p) + High(p) + Low(q) + High(q), Low(r) + High(r) + Low(s) + High(s));
    CountWord(p, q, r, s);
  }

  /** `pop` counts the bits of every 16-bit number. */
  lemma PopCounts(x: nat)
    requires x < 0x1_0000
    ensures Pop(x) == BitCount(x)
  {
    assert x == Word(x % 16, x / 16 % 16, x / 256 % 16, x / 4096) by {
      var y := x / 16;
      var z := y / 16;
      assert x == x % 16 + 16 * y;
      assert y == y % 16 + 16 * z;
      assert z == z % 16 + 16 * (z / 16);
      assert z == x / 256 && z / 16 == x / 4096;
    }
    hide *;
    PopOfNibbles(x % 16, x / 16 % 16, x / 256 % 16, x / 4096);
  }

  // ----- submasks -----

  /** Every bit of `c` is a bit of `m`. */
  predicate Submask(c: nat, m: nat) {
    c == 0 || (c % 2 <= m % 2 && Submask(c / 2, m / 2))
  }

  /** The position of a submask among all submasks: its bits moved together. */
  function Rank(c: nat, m: nat): nat {
    if m == 0 then 0 else if m % 2 == 1 then c % 2 + 2 * Rank(c / 2, m / 2) else Rank(c / 2, m / 2)
  }

  lemma {:induction false} RankBelow(c: nat, m: nat)
    ensures Rank(c, m) < Pow2(BitCount(m))
    decreases m
  {
    if m > 0 {
      RankBelow(c / 2, m / 2);
    }
  }

  lemma {:induction false} SubmaskBelow(c: nat, m: nat)
    requires Submask(c, m)
    ensures c <= m
    decreases c
  {
    if c > 0 {
      SubmaskBelow(c / 2, m / 2);
    }
  }

  /** Submasks are ranked in their numeric order. */
  lemma {:induction false} RankMonotone(c: nat, d: nat, m: nat)
    requires Submask(c, m) && Submask(d, m) && c < d
    ensures Rank(c, m) < Rank(d, m)
    decreases m
  {
    SubmaskBelow(d, m);
    if c / 2 < d / 2 {
      RankMonotone(c / 2, d / 2, m / 2);
    }
  }

  /** A mask and with the complement of another tells whether it is a submask. */
  lemma {:induction false} AndComplement(c: nat, m: nat, k: nat)
    requires c < Pow2(k) && m < Pow2(k)
    ensures And(c, Pow2(k) - 1 - m) == 0 <==> Submask(c, m)
    decreases k
  {
    if c > 0 {
      var y := Pow2(k) - 1 - m;
      assert y % 2 == 1 - m % 2 && y / 2 == Pow2(k - 1) - 1 - m / 2;
      AndStep(c, y);
      AndComplement(c / 2, m / 2, k - 1);
    }
  }

  lemma AndStep(x: nat, y: nat)
    ensures And(x, y) == (if x % 2 == 1 && y % 2 == 1 then 1 else 0) + 2 * And(x / 2, y / 2)
  {
  }
}
