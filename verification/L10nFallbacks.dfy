/** Which files a locale falls back to, told by the bits of its mask (intl/l10nflist.c:291-336, intl/loadinfo.h). */
module L10nFallbacks {
  import opened Arithmetic
  import opened BitMasks
  import opened L10nList
  import opened LocaleNames

  /** Bit number `i`. */
  predicate Bit(x: nat, i: nat) {
    x / Pow2(i) % 2 == 1
  }

  lemma BitShifts(x: nat, i: nat)
    ensures Bit(x, 0) <==> x % 2 == 1
    ensures Bit(x, i + 1) <==> Bit(x / 2, i)
  {
    var h, q, r := x / 2, x / 2 / Pow2(i), x / 2 % Pow2(i);
    assert h == q * Pow2(i) + r;
    assert q * (2 * Pow2(i)) == 2 * (q * Pow2(i));
    RemainderIs(x, q, 2 * r + x % 2, 2 * Pow2(i));
    assert Pow2(i + 1) == 2 * Pow2(i);
  }

  /** The eight bits of a mask, by their values. */
  lemma EightBits(x: nat)
    ensures (Bit(x, 0) <==> x % 2 == 1) && (Bit(x, 1) <==> x / 2 % 2 == 1)
    ensures (Bit(x, 2) <==> x / 4 % 2 == 1) && (Bit(x, 3) <==> x / 8 % 2 == 1)
    ensures (Bit(x, 4) <==> x / 16 % 2 == 1) && (Bit(x, 5) <==> x / 32 % 2 == 1)
    ensures (Bit(x, 6) <==> x / 64 % 2 == 1) && (Bit(x, 7) <==> x / 128 % 2 == 1)
  {
    assert Pow2(2) == 4;
    assert Pow2(4) == 16;
    assert Pow2(6) == 64;
  }

  lemma {:induction false} SubmaskBits(c: nat, m: nat)
    ensures Submask(c, m) <==> forall i: nat :: Bit(c, i) ==> Bit(m, i)
    decreases c
  {
    BitShifts(c, 0);
    BitShifts(m, 0);
    if c == 0 {
      forall i: nat
        ensures !Bit(c, i)
      {
        RemainderIs(0, 0, 0, Pow2(i));
      }
    } else {
      SubmaskBits(c / 2, m / 2);
      BitsOfHalves(c, m);
      hide Bit;
    }
  }

  lemma BitsOfHalves(c: nat, m: nat)
    ensures (forall i: nat :: Bit(c, i) ==> Bit(m, i))
       <==> (c % 2 <= m % 2 && forall i: nat :: Bit(c / 2, i) ==> Bit(m / 2, i))
  {
    hide Bit;
    BitShifts(c, 0);
    BitShifts(m, 0);
    if forall i: nat :: Bit(c, i) ==> Bit(m, i) {
      forall i: nat | Bit(c / 2, i)
        ensures Bit(m / 2, i)
      {
        BitShifts(c, i);
        BitShifts(m, i);
      }
    }
    if c % 2 <= m % 2 && forall i: nat :: Bit(c / 2, i) ==> Bit(m / 2, i) {
      forall i: nat | Bit(c, i)
        ensures Bit(m, i)
      {
        if i > 0 {
          BitShifts(c, i - 1);
          BitShifts(m, i - 1);
        }
      }
    }
  }

  lemma SharedBit(x: nat, y: nat)
    ensures And(x, y) != 0 <==> (x % 2 == 1 && y % 2 == 1) || And(x / 2, y / 2) != 0
  {
    AndStep(x, y);
  }

  /** A mask and some of its bits. */
  lemma BitsTested(x: nat)
    ensures Has(x, 1) <==> Bit(x, 0)
    ensures Has(x, 2) <==> Bit(x, 1)
    ensures Has(x, 4) <==> Bit(x, 2)
    ensures Has(x, 8) <==> Bit(x, 3)
    ensures Has(x, 16) <==> Bit(x, 4)
    ensures Has(x, 32) <==> Bit(x, 5)
    ensures Has(x, 64) <==> Bit(x, 6)
    ensures Has(x, 128) <==> Bit(x, 7)
  {
    hide Bit;
    EightBits(x);
    TestedFrom(x, 1, 0);
    TestedFrom(x, 2, 1);
    TestedFrom(x, 4, 2);
    TestedFrom(x, 8, 3);
    TestedFrom(x, 16, 4);
    TestedFrom(x, 32, 5);
    TestedFrom(x, 64, 6);
    TestedFrom(x, 128, 7);
  }

  lemma {:induction false} TestedFrom(x: nat, y: nat, i: nat)
    requires y == Pow2(i)
    ensures And(x, y) != 0 <==> Bit(x, i)
    decreases i
  {
    hide And, Bit;
    SharedBit(x, y);
    if i == 0 {
      BitShifts(x, 0);
      AndZero(x / 2);
    } else {
      BitShifts(x, i - 1);
      TestedFrom(x / 2, y / 2, i - 1);
    }
  }

  /** Two masks have a bit in common. */
  ghost predicate Common(x: nat, y: nat) {
    exists i: nat :: Bit(x, i) && Bit(y, i)
  }

  lemma {:induction false} AndIsCommon(x: nat, y: nat)
    ensures And(x, y) != 0 <==> Common(x, y)
    decreases x
  {
    if x == 0 {
      forall i: nat
        ensures !Bit(x, i)
      {
        RemainderIs(0, 0, 0, Pow2(i));
      }
    } else {
      AndIsCommon(x / 2, y / 2);
      SharedBit(x, y);
      CommonOfHalves(x, y);
      hide And, Common;
    }
  }

  lemma CommonOfHalves(x: nat, y: nat)
    ensures Common(x, y) <==> (x % 2 == 1 && y % 2 == 1) || Common(x / 2, y / 2)
  {
    hide Bit;
    BitShifts(x, 0);
    BitShifts(y, 0);
    if Common(x, y) {
      var i: nat :| Bit(x, i) && Bit(y, i);
      if i > 0 {
        BitShifts(x, i - 1);
        BitShifts(y, i - 1);
      }
    }
    if Common(x / 2, y / 2) {
      var i: nat :| Bit(x / 2, i) && Bit(y / 2, i);
      BitShifts(x, i);
      BitShifts(y, i);
    }
  }

  lemma BytesBits(y: nat, i: nat)
    requires y < 256 && Bit(y, i)
    ensures i < 8
  {
    if i >= 8 {
      PowerAbove(i);
      RemainderIs(y, 0, y, Pow2(i));
    }
  }

  lemma PowerAbove(i: nat)
    requires i >= 8
    ensures Pow2(i) >= 256
  {
    if i == 8 {
      assert Pow2(4) == 16;
    } else {
      PowerAbove(i - 1);
    }
  }

  lemma CommonWithByte(x: nat, y: nat)
    requires y < 256
    ensures Common(x, y) <==>
      || (Bit(x, 0) && Bit(y, 0)) || (Bit(x, 1) && Bit(y, 1)) || (Bit(x, 2) && Bit(y, 2)) || (Bit(x, 3) && Bit(y, 3))
      || (Bit(x, 4) && Bit(y, 4)) || (Bit(x, 5) && Bit(y, 5)) || (Bit(x, 6) && Bit(y, 6)) || (Bit(x, 7) && Bit(y, 7))
  {
    hide Bit;
    if Common(x, y) {
      var i: nat :| Bit(x, i) && Bit(y, i);
      BytesBits(y, i);
    }
  }

  lemma BitsOf71()
    ensures Bit(71, 0) && Bit(71, 1) && Bit(71, 2) && !Bit(71, 3) && !Bit(71, 4) && !Bit(71, 5) && Bit(71, 6)
    ensures !Bit(71, 7)
  {
    EightBits(71);
    hide Bit;
  }

  lemma BitsOf152()
    ensures !Bit(152, 0) && !Bit(152, 1) && !Bit(152, 2) && Bit(152, 3) && Bit(152, 4) && !Bit(152, 5) && !Bit(152, 6)
    ensures Bit(152, 7)
  {
    EightBits(152);
    hide Bit;
  }

  lemma CenTested(x: nat)
    ensures And(x, 71) != 0 <==> Bit(x, 0) || Bit(x, 1) || Bit(x, 2) || Bit(x, 6)
  {
    hide *;
    AndIsCommon(x, 71);
    BitsOf71();
    CommonWithByte(x, 71);
  }

  lemma XpgTested(x: nat)
    ensures And(x, 152) != 0 <==> Bit(x, 3) || Bit(x, 4) || Bit(x, 7)
  {
    hide *;
    AndIsCommon(x, 152);
    BitsOf152();
    CommonWithByte(x, 152);
  }

  lemma MasksTested(x: nat)
    ensures Has(x, CEN_SPECIFIC) <==> Bit(x, 0) || Bit(x, 1) || Bit(x, 2) || Bit(x, 6)
    ensures Has(x, XPG_SPECIFIC) <==> Bit(x, 3) || Bit(x, 4) || Bit(x, 7)
  {
    hide And, Bit;
    CenTested(x);
    XpgTested(x);
  }

  /** A mask that a node with `mask` falls back to: no bit that `mask` has not; not one of revision, sponsor, special
      and audience together with one of normalized codeset, codeset and modifier; and not both codesets. */
  ghost predicate Allowed(c: nat, mask: nat) {
    && (forall i: nat :: Bit(c, i) ==> Bit(mask, i))
    && !((Bit(c, 0) || Bit(c, 1) || Bit(c, 2) || Bit(c, 6)) && (Bit(c, 3) || Bit(c, 4) || Bit(c, 7)))
    && !(Bit(c, 3) && Bit(c, 4))
  }

  lemma WantedIsAllowed(c: nat, mask: nat)
    requires c < 0x1_0000_0000 && mask < 0x1_0000_0000
    ensures Wanted(c, mask) <==> Allowed(c, mask)
  {
    hide And, Bit, Submask, Has, Pow2;
    ComplementTold(c, mask);
    SubmaskBits(c, mask);
    BitsTested(c);
    MasksTested(c);
  }

  lemma ComplementTold(c: nat, mask: nat)
    requires c < 0x1_0000_0000 && mask < 0x1_0000_0000
    ensures And(c, 0xffff_ffff - mask % 0x1_0000_0000) == 0 <==> Submask(c, mask)
  {
    WordIsPow2();
    hide And, Pow2, Submask;
    AndComplement(c, mask, 32);
    RemainderIs(mask, 0, mask, 0x1_0000_0000);
  }

  /** The name is that of one directory and an allowed mask, up to `top`. */
  ghost predicate FallsBackTo(dirs: seq<string>, top: int, mask: nat, p: Parts, filename: string, name: string) {
    exists k: nat, c: nat :: k < |dirs| && c <= top && Allowed(c, mask) && name == FileName([dirs[k]], c, p, filename)
  }

  lemma {:induction false} RequestedUpTo(dirs: seq<string>, top: int, mask: nat, p: Parts, filename: string,
                                         name: string)
    requires top < 0x1_0000_0000 && mask < 0x1_0000_0000
    ensures name in Requests(dirs, top, mask, p, filename) <==> FallsBackTo(dirs, top, mask, p, filename, name)
    decreases top + 1
  {
    hide Wanted, Allowed, FileName;
    if top >= 0 {
      RequestedUpTo(dirs, top - 1, mask, p, filename, name);
      WantedIsAllowed(top, mask);
      if FallsBackTo(dirs, top, mask, p, filename, name) {
        var k: nat, c: nat :| k < |dirs| && c <= top && Allowed(c, mask) && name == FileName([dirs[k]], c, p, filename);
        if c == top {
          assert Row(dirs, top, p, filename)[k] == name;
        }
      }
      if Wanted(top, mask) && name in Row(dirs, top, p, filename) {
        var k :| 0 <= k < |dirs| && Row(dirs, top, p, filename)[k] == name;
        assert name == FileName([dirs[k]], top, p, filename);
      }
    }
  }

  /** What a node falls back to: exactly the names with one directory and an allowed mask that is smaller, or, for a
      node that stands for several directories, equal. */
  lemma RequestedExactly(dirs: seq<string>, mask: nat, p: Parts, filename: string, name: string)
    requires mask < 0x1_0000_0000
    ensures name in Requests(dirs, FirstMask(dirs, mask), mask, p, filename)
       <==> exists k: nat, c: nat :: k < |dirs| && (if |dirs| == 1 then c < mask else c <= mask) && Allowed(c, mask)
                                     && name == FileName([dirs[k]], c, p, filename)
  {
    hide Requests, Allowed, FileName;
    RequestedUpTo(dirs, FirstMask(dirs, mask), mask, p, filename, name);
  }

  lemma {:induction false} NoneBetween(dirs: seq<string>, low: nat, high: nat, mask: nat, p: Parts, filename: string)
    requires low <= high && forall c :: low < c <= high ==> !Wanted(c, mask)
    ensures Requests(dirs, high, mask, p, filename) == Requests(dirs, low, mask, p, filename)
    decreases high
  {
    hide Wanted, Row;
    if low < high {
      NoneBetween(dirs, low, high - 1, mask, p, filename);
      assert !Wanted(high, mask);
    }
  }

  /** A territory and both codesets. */
  lemma FallbacksOf56(dir: string, p: Parts, filename: string)
    ensures Requests([dir], FirstMask([dir], 56), 56, p, filename)
         == [FileName([dir], 48, p, filename), FileName([dir], 40, p, filename), FileName([dir], 32, p, filename),
             FileName([dir], 16, p, filename), FileName([dir], 8, p, filename), FileName([dir], 0, p, filename)]
  {
    hide Wanted, FileName, Row, Requests;
    RequestedNext(dir, 48, 55, p, filename);
    RequestedNext(dir, 40, 47, p, filename);
    RequestedNext(dir, 32, 39, p, filename);
    RequestedNext(dir, 16, 31, p, filename);
    RequestedNext(dir, 8, 15, p, filename);
    RequestedNext(dir, 0, 7, p, filename);
    assert Requests([dir], -1, 56, p, filename) == [] by {
      NoRequests([dir], -1, 56, p, filename, []);
    }
  }

  lemma RequestedNext(dir: string, c: nat, top: nat, p: Parts, filename: string)
    requires c <= top < 56 && OneOfSix(c) && forall d :: c < d <= top ==> !OneOfSix(d)
    ensures Requests([dir], top, 56, p, filename)
         == [FileName([dir], c, p, filename)] + Requests([dir], c - 1, 56, p, filename)
  {
    hide Wanted, FileName, OneOfSix;
    forall d: nat | c <= d <= top
      ensures Wanted(d, 56) <==> OneOfSix(d)
    {
      WantedOf56(d);
    }
    NoneBetween([dir], c, top, 56, p, filename);
    assert [[dir][0]] == [dir];
    assert Row([dir], c, p, filename) == [FileName([dir], c, p, filename)];
    hide Row;
  }

  predicate OneOfSix(c: nat) {
    c == 48 || c == 40 || c == 32 || c == 16 || c == 8 || c == 0
  }

  lemma WantedOf56(c: nat)
    requires c < 56
    ensures Wanted(c, 56) <==> OneOfSix(c)
  {
    hide And, Bit, Submask, Has, OneOfSix;
    ComplementTold(c, 56);
    SubmaskOf56(c);
    BitsTested(c);
    MasksTested(c);
    if c % 8 == 0 {
      OctetsOf56(c);
      SixOctets(c);
    } else {
      assert !OneOfSix(c) by {
        SixOctets(c);
      }
    }
  }

  lemma SixOctets(c: nat)
    ensures OneOfSix(c) ==> c % 8 == 0
    ensures c % 8 == 0 && c < 56 ==> (OneOfSix(c) <==> c != 24)
  {
    var e := c / 8;
    assert c % 8 == 0 ==> c == 8 * e;
  }

  lemma OctetsOf56(c: nat)
    requires c < 56 && c % 8 == 0
    ensures Bit(c, 3) <==> c == 8 || c == 24 || c == 40
    ensures Bit(c, 4) <==> c == 16 || c == 24 || c == 48
    ensures !Bit(c, 0) && !Bit(c, 1) && !Bit(c, 2) && !Bit(c, 6) && !Bit(c, 7)
  {
    EightBits(c);
    hide Bit;
    var e := c / 8;
    assert c == 8 * e && e < 7;
  }

  lemma SubmaskStep(c: nat, m: nat)
    ensures Submask(c, m) <==> c % 2 <= m % 2 && Submask(c / 2, m / 2)
  {
  }

  lemma SubmaskOf56(c: nat)
    requires c < 56
    ensures Submask(c, 56) <==> c % 8 == 0
  {
    hide Submask;
    var c1, c2, c3 := c / 2, c / 4, c / 8;
    assert c1 / 2 == c2 && c2 / 2 == c3;
    SubmaskStep(c, 56);
    SubmaskStep(c1, 28);
    SubmaskStep(c2, 14);
    SubmaskOf7(c3);
  }

  lemma SubmaskOf7(c: nat)
    requires c < 8
    ensures Submask(c, 7)
  {
    hide Submask;
    SubmaskStep(c, 7);
    SubmaskStep(c / 2, 3);
    SubmaskStep(c / 2 / 2, 1);
    NoneIsSubmask();
  }

  lemma NoneIsSubmask()
    ensures Submask(0, 0)
  {
  }

  /** A name with the parts that XPG names have, by the bits of its mask. */
  lemma PlainName(dir: string, mask: nat, p: Parts, filename: string)
    requires mask < 64 && mask % 8 == 0
    ensures FileName([dir], mask, p, filename)
         == dir + "/" + (p.language + (if mask / 32 % 2 == 1 then "_" + p.territory else "")
                         + (if mask / 16 % 2 == 1 then "." + p.codeset else "")
                         + (if mask / 8 % 2 == 1 then "." + p.normalized else "")) + "/" + filename
  {
    hide XpgOnto, CenOnto, Joined;
    PlainXpg(mask, p);
    NoCen(mask, p, XpgOnto([], mask, p));
    OneDirectory(dir);
  }

  lemma OneDirectory(dir: string)
    ensures Joined([dir], PATH_SEPARATOR) == dir
  {
  }

  lemma PlainXpg(mask: nat, p: Parts)
    requires mask < 64 && mask % 8 == 0
    ensures XpgOnto([], mask, p)
         == p.language + (if mask / 32 % 2 == 1 then "_" + p.territory else "")
            + (if mask / 16 % 2 == 1 then "." + p.codeset else "")
            + (if mask / 8 % 2 == 1 then "." + p.normalized else "")
  {
    Tested(mask);
    hide Has;
    assert mask / 64 == 0 && mask / 128 == 0;
    assert [] + p.language == p.language;
  }

  lemma NoCen(mask: nat, p: Parts, before: string)
    requires mask % 8 == 0
    ensures CenOnto(before, mask, p) == before
  {
    assert mask % 2 == 0 && mask / 2 % 2 == 0 && mask / 4 % 2 == 0;
    hide Has;
    Tested(mask);
  }

  /** The parts of de_DE.UTF-8. */
  const GERMAN: Parts := Parts("de", "DE", "UTF-8", "utf8", "", "", "", "")

  lemma NamesOfGerman(dir: string, filename: string)
    ensures FileName([dir], 56, GERMAN, filename) == dir + "/" + "de_DE.UTF-8.utf8" + "/" + filename
    ensures FileName([dir], 48, GERMAN, filename) == dir + "/" + "de_DE.UTF-8" + "/" + filename
    ensures FileName([dir], 40, GERMAN, filename) == dir + "/" + "de_DE.utf8" + "/" + filename
    ensures FileName([dir], 32, GERMAN, filename) == dir + "/" + "de_DE" + "/" + filename
    ensures FileName([dir], 16, GERMAN, filename) == dir + "/" + "de.UTF-8" + "/" + filename
    ensures FileName([dir], 8, GERMAN, filename) == dir + "/" + "de.utf8" + "/" + filename
    ensures FileName([dir], 0, GERMAN, filename) == dir + "/" + "de" + "/" + filename
  {
    GermanStems();
    hide FileName;
    PlainName(dir, 56, GERMAN, filename);
    PlainName(dir, 48, GERMAN, filename);
    PlainName(dir, 40, GERMAN, filename);
    PlainName(dir, 32, GERMAN, filename);
    PlainName(dir, 16, GERMAN, filename);
    PlainName(dir, 8, GERMAN, filename);
    PlainName(dir, 0, GERMAN, filename);
  }

  lemma GermanStems()
    ensures "de" + ("_" + "DE") + ("." + "UTF-8") + ("." + "utf8") == "de_DE.UTF-8.utf8"
    ensures "de" + ("_" + "DE") + ("." + "UTF-8") + "" == "de_DE.UTF-8"
    ensures "de" + ("_" + "DE") + "" + ("." + "utf8") == "de_DE.utf8"
    ensures "de" + ("_" + "DE") + "" + "" == "de_DE"
    ensures "de" + "" + ("." + "UTF-8") + "" == "de.UTF-8"
    ensures "de" + "" + "" + ("." + "utf8") == "de.utf8"
    ensures "de" + "" + "" + "" == "de"
  {
  }

  lemma Tested(mask: nat)
    ensures (Has(mask, 1) <==> mask % 2 == 1) && (Has(mask, 2) <==> mask / 2 % 2 == 1)
    ensures (Has(mask, 4) <==> mask / 4 % 2 == 1) && (Has(mask, 8) <==> mask / 8 % 2 == 1)
    ensures (Has(mask, 16) <==> mask / 16 % 2 == 1) && (Has(mask, 32) <==> mask / 32 % 2 == 1)
    ensures (Has(mask, 64) <==> mask / 64 % 2 == 1) && (Has(mask, 128) <==> mask / 128 % 2 == 1)
  {
    BitsTested(mask);
    EightBits(mask);
    hide Has, Bit;
  }

  /** A name with all parts that CEN names have. */
  lemma CenName(dir: string, p: Parts, filename: string)
    ensures FileName([dir], 0x67, p, filename)
         == dir + "/" + (p.language + ("_" + p.territory) + ("+" + p.modifier) + ("+" + p.special) + ("," + p.sponsor)
                         + ("_" + p.revision)) + "/" + filename
  {
    CenParts(p);
    hide Has, XpgOnto, CenOnto;
    assert Joined([dir], ':') == dir;
  }

  lemma CenParts(p: Parts)
    ensures XpgOnto([], 0x67, p) == p.language + ("_" + p.territory) + ("+" + p.modifier)
    ensures forall x :: CenOnto(x, 0x67, p) == x + ("+" + p.special) + ("," + p.sponsor) + ("_" + p.revision)
  {
    Tested(0x67);
    hide Has;
    assert [] + p.language == p.language;
  }

  /** The comma before a lone revision. */
  lemma LoneRevision(dir: string, p: Parts, filename: string)
    ensures FileName([dir], 0x21, p, filename)
         == dir + "/" + (p.language + ("_" + p.territory) + "," + ("_" + p.revision)) + "/" + filename
  {
    LoneParts(p, XpgOnto([], 0x21, p));
    hide XpgOnto, CenOnto, Joined;
    OneDirectory(dir);
  }

  lemma LoneParts(p: Parts, before: string)
    ensures XpgOnto([], 0x21, p) == p.language + ("_" + p.territory)
    ensures CenOnto(before, 0x21, p) == before + "," + ("_" + p.revision)
  {
    Tested(0x21);
    hide Has;
    assert [] + p.language == p.language;
  }

  lemma WithModifier(dir: string, p: Parts, filename: string)
    ensures FileName([dir], 0xA0, p, filename)
         == dir + "/" + (p.language + ("_" + p.territory) + ("@" + p.modifier)) + "/" + filename
  {
    ModifierParts(p);
    NoCen(0xA0, p, XpgOnto([], 0xA0, p));
    hide XpgOnto, CenOnto, Joined;
    OneDirectory(dir);
  }

  lemma ModifierParts(p: Parts)
    ensures XpgOnto([], 0xA0, p) == p.language + ("_" + p.territory) + ("@" + p.modifier)
  {
    Tested(0xA0);
    hide Has;
    assert [] + p.language == p.language;
    assert "_" + p.territory == ['_'] + p.territory && "@" + p.modifier == ['@'] + p.modifier;
  }

  lemma TwoDirectories(a: string, b: string, mask: nat, p: Parts, filename: string)
    ensures FileName([a, b], mask, p, filename) == a + ":" + b + "/" + Stem(mask, p) + "/" + filename
  {
    assert [a, b][1..] == [b];
    assert Joined([b], ':') == b;
    assert Joined([a, b], ':') == a + [':'] + b;
    hide Stem, Joined;
  }
}
