/** Taking a locale name apart (intl/explodename.c) and putting it together again. */
module LocaleExplode {
  import opened BitMasks
  import opened LocaleNames
  import opened Codesets
  import opened Wrappers

  datatype Syntax = Undecided | Xpg | Cen

  /** The parts found in a name; `None` is a NULL pointer. */
  datatype Exploded = Exploded(syntax: Syntax, language: string, territory: Option<string>, codeset: Option<string>,
                               modifier: Option<string>, special: Option<string>, sponsor: Option<string>,
                               revision: Option<string>)

  /** How many characters come before the first one of `stops`. */
  function Span(s: string, stops: string): (n: nat)
    ensures n <= |s| && (n < |s| ==> s[n] in stops) && forall i :: 0 <= i < n ==> s[i] !in stops
  {
    if s == [] || s[0] in stops then 0 else 1 + Span(s[1..], stops)
  }

  predicate Starts(s: string, c: char) {
    s != [] && s[0] == c
  }

  /** An optional part introduced by `sep` and ended by one of `stops`: the part and what follows it. */
  function Take(s: string, sep: char, stops: string): (r: (Option<string>, string))
    ensures s == (if r.0.Some? then [sep] + r.0.value else []) + r.1
    ensures r.0.Some? ==> Starts(s, sep) && (r.1 != [] ==> r.1[0] in stops)
    ensures r.0.None? ==> !Starts(s, sep)
  {
    if Starts(s, sep) then
      var n := Span(s[1..], stops);
      (Some(s[1..][..n]), s[1..][n..])
    else (None, s)
  }

  /** What follows territory and codeset: a modifier, or the parts of the CEN syntax. */
  datatype Rest = Rest(syntax: Syntax, modifier: Option<string>, special: Option<string>, sponsor: Option<string>,
                       revision: Option<string>)

  function ExplodeRest(s2: string, xpg: bool): Rest {
    if Starts(s2, '@') then Rest(Xpg, Some(s2[1..]), None, None, None)
    else if xpg then Rest(Xpg, None, None, None, None)
    else
      var (modifier, s3) := Take(s2, '+', "+,_");
      var (special, s4) := Take(s3, '+', ",_");
      var (sponsor, s5) := Take(s4, ',', "_");
      var (revision, s6) := Take(s5, '_', "");
      Rest(if s2 == [] then Undecided else Cen, modifier, special, sponsor, revision)
  }

  /** `_nl_explode_name`, without the mask. */
  function Explode(s: string): Exploded {
    var n := Span(s, "_@+,");
    if n == 0 then Exploded(Undecided, s, None, None, None, None, None, None)
    else
      var (territory, s1) := Take(s[n..], '_', ".@+,_");
      var (codeset, s2) := if territory.Some? then Take(s1, '.', "@") else (None, s1);
      var r := ExplodeRest(s2, codeset.Some?);
      Exploded(r.syntax, s[..n], territory, codeset, r.modifier, r.special, r.sponsor, r.revision)
  }

  /** The part is there but empty, and the syntax is XPG: its bit is cleared again. */
  predicate Blank(x: Exploded, part: Option<string>) {
    x.syntax == Xpg && part == Some("")
  }

  function Bit(b: bool, weight: nat): nat {
    if b then weight else 0
  }

  /** Whether the normalized codeset gets a bit of its own. The codeset is compared before a following modifier
      is cut off, so with a modifier it always differs. */
  predicate NeedsNormalized(x: Exploded) {
    && x.codeset.Some? && x.codeset.value != ""
    && (x.modifier.Some? || Normalized(x.codeset.value) != x.codeset.value)
  }

  /** The mask `_nl_explode_name` returns. */
  function Mask(x: Exploded): nat {
    Bit(x.revision.Some?, CEN_REVISION) + Bit(x.sponsor.Some?, CEN_SPONSOR) + Bit(x.special.Some?, CEN_SPECIAL)
    + Bit(NeedsNormalized(x), XPG_NORM_CODESET)
    + Bit(x.codeset.Some? && !Blank(x, x.codeset), XPG_CODESET)
    + Bit(x.territory.Some? && !Blank(x, x.territory), TERRITORY)
    + Bit(x.modifier.Some?, CEN_AUDIENCE)
    + Bit(x.modifier.Some? && !Blank(x, x.modifier), XPG_MODIFIER)
  }

  /** The mask without the normalized codeset, and without the CEN audience unless the name is a CEN name. */
  function PlainMask(x: Exploded): nat {
    Mask(x) - Bit(NeedsNormalized(x), XPG_NORM_CODESET) - Bit(x.syntax == Xpg && x.modifier.Some?, CEN_AUDIENCE)
  }

  function PartsOf(x: Exploded): Parts {
    Parts(x.language, x.territory.GetOr(""), x.codeset.GetOr(""), Normalized(x.codeset.GetOr("")),
          x.modifier.GetOr(""), x.special.GetOr(""), x.sponsor.GetOr(""), x.revision.GetOr(""))
  }

  // ----- masks by their bits -----

  lemma AndOne(b: bit, x: nat)
    ensures And(b + 2 * x, 1) == b
  {
  }

  lemma AndUp(b: bit, x: nat, y: nat)
    ensures And(b + 2 * x, 2 * y) == 2 * And(x, y)
  {
  }

  lemma BitsSeen(b0: bit, b1: bit, b2: bit, b3: bit, b4: bit, b5: bit, b6: bit, b7: bit)
    ensures var m := b0 + 2 * b1 + 4 * b2 + 8 * b3 + 16 * b4 + 32 * b5 + 64 * b6 + 128 * b7;
      && And(m, 1) == b0 && And(m, 2) == 2 * b1 && And(m, 4) == 4 * b2 && And(m, 8) == 8 * b3
      && And(m, 16) == 16 * b4 && And(m, 32) == 32 * b5 && And(m, 64) == 64 * b6 && And(m, 128) == 128 * b7
  {
    hide And;
    var m7 := b7 + 2 * 0;
    var m6 := b6 + 2 * m7;
    var m5 := b5 + 2 * m6;
    var m4 := b4 + 2 * m5;
    var m3 := b3 + 2 * m4;
    var m2 := b2 + 2 * m3;
    var m1 := b1 + 2 * m2;
    AndOne(b0, m1); AndOne(b1, m2); AndOne(b2, m3); AndOne(b3, m4);
    AndOne(b4, m5); AndOne(b5, m6); AndOne(b6, m7); AndOne(b7, 0);
    AndUp(b0, m1, 1); AndUp(b0, m1, 2); AndUp(b0, m1, 4); AndUp(b0, m1, 8);
    AndUp(b0, m1, 16); AndUp(b0, m1, 32); AndUp(b0, m1, 64);
    AndUp(b1, m2, 1); AndUp(b1, m2, 2); AndUp(b1, m2, 4); AndUp(b1, m2, 8); AndUp(b1, m2, 16); AndUp(b1, m2, 32);
    AndUp(b2, m3, 1); AndUp(b2, m3, 2); AndUp(b2, m3, 4); AndUp(b2, m3, 8); AndUp(b2, m3, 16);
    AndUp(b3, m4, 1); AndUp(b3, m4, 2); AndUp(b3, m4, 4); AndUp(b3, m4, 8);
    AndUp(b4, m5, 1); AndUp(b4, m5, 2); AndUp(b4, m5, 4);
    AndUp(b5, m6, 1); AndUp(b5, m6, 2);
    AndUp(b6, m7, 1);
  }

  /** What the name builder sees in the plain mask. */
  lemma PlainMaskSeen(x: Exploded)
    ensures Has(PlainMask(x), CEN_REVISION) == x.revision.Some?
    ensures Has(PlainMask(x), CEN_SPONSOR) == x.sponsor.Some?
    ensures Has(PlainMask(x), CEN_SPECIAL) == x.special.Some?
    ensures !Has(PlainMask(x), XPG_NORM_CODESET)
    ensures Has(PlainMask(x), XPG_CODESET) == (x.codeset.Some? && !Blank(x, x.codeset))
    ensures Has(PlainMask(x), TERRITORY) == (x.territory.Some? && !Blank(x, x.territory))
    ensures Has(PlainMask(x), CEN_AUDIENCE) == (x.modifier.Some? && x.syntax != Xpg)
    ensures Has(PlainMask(x), XPG_MODIFIER) == (x.modifier.Some? && !Blank(x, x.modifier))
  {
    hide And;
    BitsSeen(Bit(x.revision.Some?, 1), Bit(x.sponsor.Some?, 1), Bit(x.special.Some?, 1), 0,
             Bit(x.codeset.Some? && !Blank(x, x.codeset), 1), Bit(x.territory.Some? && !Blank(x, x.territory), 1),
             Bit(x.modifier.Some? && x.syntax != Xpg, 1), Bit(x.modifier.Some? && !Blank(x, x.modifier), 1));
  }

  /** An optional part as it stood in the name. */
  function Written(sep: char, part: Option<string>): string {
    if part.Some? then [sep] + part.value else []
  }

  lemma TakeToEnd(s: string)
    requires s == [] || s[0] == '_'
    ensures s == Written('_', Take(s, '_', "").0)
  {
  }

  /** One step of taking a name apart: what is left starts with a later separator. */
  lemma TakeStep(s: string, sep: char, stops: string)
    requires s != [] && s[0] != sep ==> s[0] in stops
    ensures s == Written(sep, Take(s, sep, stops).0) + Take(s, sep, stops).1
    ensures Take(s, sep, stops).1 != [] ==> Take(s, sep, stops).1[0] in stops
  {
    hide Span;
  }

  /** The CEN-only parts spell what comes after language and territory. */
  lemma CenSpelled(s2: string)
    requires s2 == [] || s2[0] in "+,_"
    ensures var (modifier, s3) := Take(s2, '+', "+,_");
      var (special, s4) := Take(s3, '+', ",_");
      var (sponsor, s5) := Take(s4, ',', "_");
      var (revision, s6) := Take(s5, '_', "");
      s2 == Written('+', modifier) + (Written('+', special) + (Written(',', sponsor) + Written('_', revision)))
  {
    hide Take, Written;
    TakeStep(s2, '+', "+,_");
    var (modifier, s3) := Take(s2, '+', "+,_");
    TakeStep(s3, '+', ",_");
    var (special, s4) := Take(s3, '+', ",_");
    TakeStep(s4, ',', "_");
    var (sponsor, s5) := Take(s4, ',', "_");
    TakeToEnd(s5);
  }

  /** The CEN-only parts of a name. */
  function CenPart(x: Exploded): string {
    Written('+', x.special) + (Written(',', x.sponsor) + Written('_', x.revision))
  }

  function ModifierSign(x: Exploded): char {
    if x.syntax == Xpg then '@' else '+'
  }

  /** Exploding loses nothing: the parts with their separators are the name. */
  lemma PartsSpellName(s: string)
    ensures var x := Explode(s);
      s == x.language + (Written('_', x.territory) + (Written('.', x.codeset)
           + (Written(ModifierSign(x), x.modifier) + CenPart(x))))
  {
    hide Take, Span, ExplodeRest, CenPart, ModifierSign, Starts;
    var n := Span(s, "_@+,");
    if n == 0 {
      NoParts(s);
    } else {
      assert s == s[..n] + s[n..];
      var (territory, s1) := Take(s[n..], '_', ".@+,_");
      TakeStep(s[n..], '_', ".@+,_");
      if territory.Some? {
        TakeStep(s1, '.', "@+,_");
        CodesetStep(s1);
      }
      TailSpelled(s);
    }
  }

  lemma NoParts(s: string)
    requires Span(s, "_@+,") == 0
    ensures var x := Explode(s);
      s == x.language + (Written('_', x.territory) + (Written('.', x.codeset)
           + (Written(ModifierSign(x), x.modifier) + CenPart(x))))
  {
  }

  lemma CodesetStep(s1: string)
    ensures s1 == Written('.', Take(s1, '.', "@").0) + Take(s1, '.', "@").1
    ensures Take(s1, '.', "@").0.Some? && Take(s1, '.', "@").1 != [] ==> Take(s1, '.', "@").1[0] == '@'
    ensures Take(s1, '.', "@").0.None? ==> Take(s1, '.', "@").1 == s1 && !Starts(s1, '.')
  {
    hide Span;
  }

  /** Everything after territory and codeset. */
  function Tail(s: string): string {
    var n := Span(s, "_@+,");
    var (territory, s1) := Take(s[n..], '_', ".@+,_");
    if territory.Some? then Take(s1, '.', "@").1 else s1
  }

  lemma TailSpelled(s: string)
    requires Span(s, "_@+,") > 0
    ensures Tail(s) == Written(ModifierSign(Explode(s)), Explode(s).modifier) + CenPart(Explode(s))
  {
    hide Take, Span;
    var n := Span(s, "_@+,");
    TakeStep(s[n..], '_', ".@+,_");
    var (territory, s1) := Take(s[n..], '_', ".@+,_");
    CodesetStep(s1);
    hide CenPart;
    var s2 := Tail(s);
    if Starts(s2, '@') {
      assert s2 == ['@'] + s2[1..];
    } else if territory.Some? && Take(s1, '.', "@").0.Some? {
      assert s2 == [];
    } else {
      CenSpelled(s2);
    }
  }

  /** The name as the file-name builder recomposes it. */
  function Recomposed(s: string): string {
    Stem(PlainMask(Explode(s)), PartsOf(Explode(s)))
  }

  lemma Reassociate(a: string, b: string, c: string, d: string, e: string, f: string, g: string, h: string)
    ensures [] + a + b + c + d + e + f + g + h == a + (b + (c + (d + (e + (f + (g + h))))))
  {
  }

  /** The two pieces that name the sponsor and the revision: a comma comes first even without a sponsor. */
  function SponsorPart(x: Exploded): string {
    if x.sponsor.None? && x.revision.Some? then "," else Written(',', x.sponsor)
  }

  /** An XPG part that is empty is dropped with its separator. */
  function Kept1(x: Exploded, sep: char, part: Option<string>): string {
    if Blank(x, part) then [] else Written(sep, part)
  }

  /** Which parts the builder leaves out or adds. */
  lemma RecomposedSpells(s: string)
    ensures var x := Explode(s);
            var cen := Written('+', x.special) + (SponsorPart(x) + Written('_', x.revision));
      Recomposed(s) == x.language
        + (Kept1(x, '_', x.territory) + (Kept1(x, '.', x.codeset) + (Kept1(x, ModifierSign(x), x.modifier) + cen)))
  {
    hide Has, Explode, PlainMask, Piece, Written, Kept1, SponsorPart, ModifierSign;
    var x := Explode(s);
    PiecesWritten(x);
    var modifier := Kept1(x, ModifierSign(x), x.modifier);
    Reassociate(x.language, Kept1(x, '_', x.territory), Kept1(x, '.', x.codeset), [], modifier,
                Written('+', x.special), SponsorPart(x), Written('_', x.revision));
    var cen := Written('+', x.special) + (SponsorPart(x) + Written('_', x.revision));
    assert [] + (modifier + cen) == modifier + cen;
  }

  lemma PiecesWritten(x: Exploded)
    ensures var m := PlainMask(x);
      var p := PartsOf(x);
      && p.language == x.language
      && Piece(Has(m, TERRITORY), '_', p.territory) == Kept1(x, '_', x.territory)
      && Piece(Has(m, XPG_CODESET), '.', p.codeset) == Kept1(x, '.', x.codeset)
      && Piece(Has(m, XPG_NORM_CODESET), '.', p.normalized) == []
      && Piece(Has(m, XPG_MODIFIER) || Has(m, CEN_AUDIENCE), if Has(m, CEN_AUDIENCE) then '+' else '@', p.modifier)
         == Kept1(x, ModifierSign(x), x.modifier)
      && Piece(Has(m, CEN_SPECIAL), '+', p.special) == Written('+', x.special)
      && Piece(Has(m, CEN_SPONSOR) || Has(m, CEN_REVISION), ',', if Has(m, CEN_SPONSOR) then p.sponsor else [])
         == SponsorPart(x)
      && Piece(Has(m, CEN_REVISION), '_', p.revision) == Written('_', x.revision)
  {
    hide Has, PlainMask;
    PlainMaskSeen(x);
  }

  /** When the round trip is exact. */
  predicate Recomposable(s: string) {
    var x := Explode(s);
    !Blank(x, x.territory) && !Blank(x, x.codeset) && !Blank(x, x.modifier) && !(x.revision.Some? && x.sponsor.None?)
  }

  /** Exploding and recomposing gives back the name if and only if no XPG part is empty and no revision lacks
      its sponsor. */
  lemma RoundTripExactly(s: string)
    ensures Recomposed(s) == s <==> Recomposable(s)
  {
    hide Explode, Recomposed;
    PartsSpellName(s);
    RecomposedSpells(s);
    RevisionIsCen(s);
    var x := Explode(s);
    LengthsDiffer(x);
  }

  lemma LengthsDiffer(x: Exploded)
    ensures |Kept1(x, '_', x.territory)| == |Written('_', x.territory)| - Bit(Blank(x, x.territory), 1)
    ensures |Kept1(x, '.', x.codeset)| == |Written('.', x.codeset)| - Bit(Blank(x, x.codeset), 1)
    ensures |Kept1(x, ModifierSign(x), x.modifier)|
         == |Written(ModifierSign(x), x.modifier)| - Bit(Blank(x, x.modifier), 1)
    ensures |SponsorPart(x)| == |Written(',', x.sponsor)| + Bit(x.sponsor.None? && x.revision.Some?, 1)
  {
  }

  lemma RevisionIsCen(s: string)
    ensures Explode(s).revision.Some? ==> Explode(s).syntax == Cen
  {
    hide Span;
  }

  /** A name of the form `L[_T[.C]][@M]`. */
  function XpgName(language: string, territory: Option<string>, codeset: Option<string>, modifier: Option<string>)
    : string
  {
    language + Written('_', territory) + Written('.', codeset) + Written('@', modifier)
  }

  predicate Avoids(s: string, stops: string) {
    forall i :: 0 <= i < |s| ==> s[i] !in stops
  }

  predicate NonEmpty(part: Option<string>) {
    part.Some? ==> part.value != ""
  }

  lemma {:induction false} SpanOf(s: string, t: string, stops: string)
    requires Avoids(s, stops) && (t == [] || t[0] in stops)
    ensures Span(s + t, stops) == |s|
  {
    if s == [] {
      assert s + t == t;
    } else {
      assert (s + t)[1..] == s[1..] + t;
      SpanOf(s[1..], t, stops);
    }
  }

  lemma TakeOf(sep: char, part: string, t: string, stops: string)
    requires Avoids(part, stops) && (t == [] || t[0] in stops)
    ensures Take([sep] + part + t, sep, stops) == (Some(part), t)
  {
    assert ([sep] + part + t)[1..] == part + t;
    SpanOf(part, t, stops);
  }

  /** Every XPG name with non-empty parts is exploded into exactly these parts, and recomposed to itself. */
  lemma XpgRoundTrip(language: string, territory: Option<string>, codeset: Option<string>, modifier: Option<string>)
    requires language != "" && Avoids(language, "_@+,")
    requires NonEmpty(territory) && NonEmpty(codeset) && NonEmpty(modifier) && (codeset.Some? ==> territory.Some?)
    requires territory.Some? ==> Avoids(territory.value, ".@+,_")
    requires codeset.Some? ==> Avoids(codeset.value, "@")
    ensures var s := XpgName(language, territory, codeset, modifier);
      && Explode(s).language == language && Explode(s).territory == territory
      && Explode(s).codeset == codeset && Explode(s).modifier == modifier
      && Recomposed(s) == s
  {
    hide Take, Span, Explode, Recomposed, Written, XpgName, Avoids;
    XpgTaken(language, territory, codeset, modifier);
    var s := XpgName(language, territory, codeset, modifier);
    XpgExploded(language, territory, codeset, modifier, s);
    RoundTripExactly(s);
  }

  lemma XpgTaken(language: string, territory: Option<string>, codeset: Option<string>, modifier: Option<string>)
    requires language != "" && Avoids(language, "_@+,") && (codeset.Some? ==> territory.Some?)
    requires territory.Some? ==> Avoids(territory.value, ".@+,_")
    requires codeset.Some? ==> Avoids(codeset.value, "@")
    ensures var s := XpgName(language, territory, codeset, modifier);
      var s2 := Written('@', modifier);
      var s1 := Written('.', codeset) + s2;
      && Span(s, "_@+,") == |language| && s[..|language|] == language
      && Take(s[|language|..], '_', ".@+,_") == (territory, s1)
      && Take(s1, '.', "@") == (codeset, s2)
  {
    hide Take, Span, Avoids, Written;
    var s2 := Written('@', modifier);
    var s1 := Written('.', codeset) + s2;
    var s0 := Written('_', territory) + s1;
    assert XpgName(language, territory, codeset, modifier) == language + s0;
    WrittenStarts('@', modifier, []);
    WrittenStarts('.', codeset, s2);
    WrittenStarts('_', territory, s1);
    assert s2 + [] == s2;
    SpanOf(language, s0, "_@+,");
    assert (language + s0)[..|language|] == language && (language + s0)[|language|..] == s0;
    TakenBack('_', territory, s1, ".@+,_");
    TakenBack('.', codeset, s2, "@");
  }

  lemma WrittenStarts(sep: char, part: Option<string>, t: string)
    ensures Written(sep, part) + t == [] || (Written(sep, part) + t)[0] == if part.Some? then sep else First(t)
    ensures part.None? ==> Written(sep, part) + t == t
  {
  }

  lemma TakenBack(sep: char, part: Option<string>, t: string, stops: string)
    requires part.Some? ==> Avoids(part.value, stops) && (t == [] || t[0] in stops)
    requires part.None? ==> !Starts(t, sep)
    ensures Take(Written(sep, part) + t, sep, stops) == (part, t)
  {
    if part.Some? {
      TakeOf(sep, part.value, t, stops);
    } else {
      assert [] + t == t;
    }
  }

  lemma XpgExploded(language: string, territory: Option<string>, codeset: Option<string>, modifier: Option<string>,
                    s: string)
    requires language != "" && (codeset.Some? ==> territory.Some?)
    requires Span(s, "_@+,") == |language| && s[..|language|] == language
    requires var s2 := Written('@', modifier);
      var s1 := Written('.', codeset) + s2;
      && Take(s[|language|..], '_', ".@+,_") == (territory, s1)
      && Take(s1, '.', "@") == (codeset, s2)
    ensures var x := Explode(s);
      && x.language == language && x.territory == territory && x.codeset == codeset && x.modifier == modifier
      && x.revision.None?
  {
  }

  /** A revision without a sponsor: the name does not come back. */
  lemma RevisionAlone(language: string, territory: string, revision: string)
    requires language != "" && Avoids(language, "_@+,") && Avoids(territory, ".@+,_")
    ensures var s := language + (['_'] + territory + (['_'] + revision));
      && Explode(s).revision == Some(revision) && Explode(s).sponsor.None?
      && Recomposed(s) != s
  {
    var s0 := ['_'] + territory + (['_'] + revision);
    var s := language + s0;
    SpanOf(language, s0, "_@+,");
    assert s[..|language|] == language && s[|language|..] == s0;
    TakeOf('_', territory, ['_'] + revision, ".@+,_");
    RevisionTaken(revision);
    RoundTripExactly(s);
    hide Span, Take, Recomposed, ExplodeRest;
  }

  lemma RevisionTaken(revision: string)
    ensures Take(['_'] + revision, '.', "@") == (None, ['_'] + revision)
    ensures ExplodeRest(['_'] + revision, false) == Rest(Cen, None, None, None, Some(revision))
  {
    assert ['_'] + revision + [] == ['_'] + revision;
    TakeOf('_', revision, [], "");
  }

  /** A codeset that is normalized already, in a name with a modifier: the bit for another normalized form is set all
      the same. */
  lemma NormalizedAgain(language: string, territory: string, codeset: string, modifier: string)
    requires language != "" && Avoids(language, "_@+,") && territory != "" && Avoids(territory, ".@+,_")
    requires codeset != "" && Avoids(codeset, "@") && Normalized(codeset) == codeset && modifier != ""
    ensures var x := Explode(XpgName(language, Some(territory), Some(codeset), Some(modifier)));
      x.codeset == Some(codeset) && NeedsNormalized(x)
  {
    XpgRoundTrip(language, Some(territory), Some(codeset), Some(modifier));
    hide Explode, Avoids, XpgName, Normalized;
  }

  lemma RevisionOne()
    ensures Recomposed("de_DE_1") != "de_DE_1"
  {
    hide Explode, Recomposed;
    assert "de" + (['_'] + "DE" + (['_'] + "1")) == "de_DE_1";
    RevisionAlone("de", "DE", "1");
  }

  lemma NormalizedUtf8()
    ensures Normalized("utf8") == "utf8" && NeedsNormalized(Explode("de_DE.utf8@euro"))
  {
    hide Explode, Kept, NeedsNormalized;
    assert IsAlpha("utf8"[0]) && HasAlpha("utf8");
    KeptOfCanonical("utf8");
    assert XpgName("de", Some("DE"), Some("utf8"), Some("euro")) == "de_DE.utf8@euro";
    NormalizedAgain("de", "DE", "utf8", "euro");
  }

  // ----- in place -----

  /** The C string at offset `off` is `part`. */
  predicate IsPart(buf: seq<char>, off: nat, part: string) {
    off + |part| < |buf| && buf[off..off + |part|] == part && buf[off + |part|] == '\0'
  }

  /** An output pointer: NULL for a missing part, else the offset of a C string with that part. */
  predicate Points(buf: seq<char>, off: Option<nat>, part: Option<string>) {
    match part
    case None => off == None
    case Some(p) => off.Some? && IsPart(buf, off.value, p)
  }

  function First(s: string): char {
    if s == [] then '\0' else s[0]
  }

  /** Scan from `start` to the first stop character or the end of the string. */
  method ScanTo(name: array<char>, start: nat, stops: string, ghost rest: string) returns (cp: nat)
    requires NoNul(rest) && start + |rest| < name.Length
    requires name[start..start + |rest|] == rest && name[start + |rest|] == '\0'
    ensures cp == start + Span(rest, stops)
  {
    cp := start;
    while name[cp] != '\0' && name[cp] !in stops
      invariant start <= cp <= start + |rest|
      invariant cp - start + Span(rest[cp - start..], stops) == Span(rest, stops)
      decreases start + |rest| - cp
    {
      assert cp < start + |rest|;
      assert name[start..start + |rest|][cp - start] == rest[cp - start];
      assert rest[cp - start..][1..] == rest[cp + 1 - start..];
      cp := cp + 1;
    }
    if cp < start + |rest| {
      assert name[start..start + |rest|][cp - start] == rest[cp - start];
    } else {
      assert rest[cp - start..] == [];
    }
  }

  /** Everything from `cp` on is still the text `rest` of the original name. */
  predicate Untouched(buf: seq<char>, cp: nat, rest: string) {
    cp + |rest| + 1 == |buf| && buf[cp..] == rest + ['\0'] && NoNul(rest)
  }

  /** A part found so far ends before `cp`, or exactly at `cp` where its NUL is yet to be written. */
  predicate Pending(buf: seq<char>, off: Option<nat>, part: Option<string>, cp: nat) {
    match part
    case None => off == None
    case Some(p) =>
      && off.Some? && off.value + |p| <= cp <= |buf| && buf[off.value..off.value + |p|] == p
      && (off.value + |p| < cp ==> buf[off.value + |p|] == '\0')
  }

  /** If the next character is `sep`: cut the name there and take the part up to one of `stops`. */
  method TakePart(name: array<char>, start: nat, sep: char, stops: string, ghost rest: string)
    returns (part: Option<nat>, cp: nat)
    requires Untouched(name[..], start, rest) && sep != '\0'
    modifies name
    ensures CutBetween(old(name[..]), name[..], start, cp)
    ensures Untouched(name[..], cp, Take(rest, sep, stops).1)
    ensures Pending(name[..], part, Take(rest, sep, stops).0, cp)
    ensures part.Some? ==> cp > start && part == Some(start + 1) && Take(rest, sep, stops).0.Some?
    ensures part.Some? ==> cp == start + 1 + |Take(rest, sep, stops).0.value|
  {
    hide Span, NoNul;
    part, cp := None, start;
    SliceOf(name[..], start, rest);
    if name[start] == sep {
      CutHere(name[..], start, rest);
      name[start] := '\0';
      assert name[..] == old(name[..])[start := '\0'];
      SliceOf(name[..], start + 1, rest[1..]);
      part := Some(start + 1);
      cp := ScanTo(name, start + 1, stops, rest[1..]);
      Advance(name[..], start + 1, rest[1..], Span(rest[1..], stops));
    }
  }

  lemma CutHere(buf: seq<char>, start: nat, rest: string)
    requires Untouched(buf, start, rest) && rest != []
    ensures Untouched(buf[start := '\0'], start + 1, rest[1..])
  {
  }

  lemma Advance(buf: seq<char>, cp: nat, rest: string, n: nat)
    requires Untouched(buf, cp, rest) && n <= |rest|
    ensures Untouched(buf, cp + n, rest[n..])
    ensures buf[cp..cp + n] == rest[..n]
  {
  }

  lemma SliceOf(buf: seq<char>, cp: nat, rest: string)
    requires Untouched(buf, cp, rest)
    ensures NoNul(rest) && cp + |rest| < |buf| && buf[cp] == First(rest)
    ensures buf[cp..cp + |rest|] == rest && buf[cp + |rest|] == '\0'
  {
  }

  /** Cutting the name further on leaves earlier parts alone and closes the one that was still open. */
  lemma StillPending(before: seq<char>, after: seq<char>, off: Option<nat>, part: Option<string>, start: nat, cp: nat)
    requires Pending(before, off, part, start) && CutBetween(before, after, start, cp)
    ensures Pending(after, off, part, cp)
  {
  }

  /** The output pointers of `_nl_explode_name`. */
  datatype Pointers = Pointers(language: nat, territory: Option<nat>, codeset: Option<nat>, modifier: Option<nat>,
                               special: Option<nat>, sponsor: Option<nat>, revision: Option<nat>)

  /** The pointers lead to the parts. */
  predicate AllPoint(buf: seq<char>, p: Pointers, x: Exploded) {
    && IsPart(buf, p.language, x.language)
    && Points(buf, p.territory, x.territory) && Points(buf, p.codeset, x.codeset)
    && Points(buf, p.modifier, x.modifier) && Points(buf, p.special, x.special)
    && Points(buf, p.sponsor, x.sponsor) && Points(buf, p.revision, x.revision)
  }

  /** At the end of the string every part is closed. */
  lemma ClosedAtEnd(buf: seq<char>, off: Option<nat>, part: Option<string>, cp: nat)
    requires Pending(buf, off, part, cp) && cp < |buf| && buf[cp] == '\0'
    ensures Points(buf, off, part)
  {
  }

  /** Language, territory and codeset, and what follows them. */
  datatype Head = Head(language: string, territory: Option<string>, codeset: Option<string>, rest: string)

  function HeadOf(s: string): Head {
    var n := Span(s, "_@+,");
    var (territory, s1) := Take(s[n..], '_', ".@+,_");
    var (codeset, s2) := if territory.Some? then Take(s1, '.', "@") else (None, s1);
    Head(s[..n], territory, codeset, s2)
  }

  function Whole(h: Head): Exploded {
    var r := ExplodeRest(h.rest, h.codeset.Some?);
    Exploded(r.syntax, h.language, h.territory, h.codeset, r.modifier, r.special, r.sponsor, r.revision)
  }

  lemma ExplodeIsWhole(s: string)
    requires Span(s, "_@+,") > 0
    ensures Explode(s) == Whole(HeadOf(s))
  {
    hide Span, Take, ExplodeRest;
  }

  /** The pointers found so far lead to the parts of the head, the last of which may still be open at `cp`. */
  predicate HeadPending(buf: seq<char>, territory: Option<nat>, codeset: Option<nat>, h: Head, cp: nat) {
    && Pending(buf, Some(0), Some(h.language), cp)
    && Pending(buf, territory, h.territory, cp) && Pending(buf, codeset, h.codeset, cp)
  }

  /** The part of `_nl_explode_name` for language, territory and codeset. */
  method ExplodeHead(name: array<char>, n: nat, ghost s: string)
    returns (territory: Option<nat>, codeset: Option<nat>, cp: nat)
    requires Untouched(name[..], 0, s) && n == Span(s, "_@+,") > 0
    modifies name
    ensures n <= cp < name.Length
    ensures HeadPending(name[..], territory, codeset, HeadOf(s), cp) && Untouched(name[..], cp, HeadOf(s).rest)
    ensures codeset.Some? ==> HeadOf(s).codeset.Some? && codeset.value + |HeadOf(s).codeset.value| == cp
  {
    hide Take, Span;
    Advance(name[..], 0, s, n);
    ghost var b0 := name[..];
    territory, cp := TakePart(name, n, '_', ".@+,_", s[n..]);
    ghost var t := Take(s[n..], '_', ".@+,_");
    StillPending(b0, name[..], Some(0), Some(s[..n]), n, cp);
    codeset := None;
    if territory.Some? {
      ghost var b1, cp1 := name[..], cp;
      codeset, cp := TakePart(name, cp, '.', "@", t.1);
      StillPending(b1, name[..], Some(0), Some(s[..n]), cp1, cp);
      StillPending(b1, name[..], territory, t.0, cp1, cp);
    }
  }

  /** What `start` and `cp` have in common between two contents of the buffer. */
  predicate CutBetween(before: seq<char>, after: seq<char>, start: nat, cp: nat) {
    && |before| == |after| && start <= cp < |after| && after[..start] == before[..start]
    && (cp > start ==> after[start] == '\0')
    && (cp == start ==> after == before)
  }

  lemma CutTwice(b0: seq<char>, b1: seq<char>, b2: seq<char>, p0: nat, p1: nat, p2: nat)
    requires CutBetween(b0, b1, p0, p1) && CutBetween(b1, b2, p1, p2)
    ensures CutBetween(b0, b2, p0, p2)
  {
  }

  /** The part of `_nl_explode_name` for the CEN syntax. */
  method ExplodeCen(name: array<char>, start: nat, ghost s2: string)
    returns (modifier: Option<nat>, special: Option<nat>, sponsor: Option<nat>, revision: Option<nat>, cp: nat)
    requires Untouched(name[..], start, s2) && (s2 == [] || s2[0] in "+,_")
    modifies name
    ensures CutBetween(old(name[..]), name[..], start, cp) && name[cp] == '\0' && cp == name.Length - 1
    ensures var (m, s3) := Take(s2, '+', "+,_");
      var (sp, s4) := Take(s3, '+', ",_");
      var (so, s5) := Take(s4, ',', "_");
      var (r, s6) := Take(s5, '_', "");
      && Pending(name[..], modifier, m, cp) && Pending(name[..], special, sp, cp)
      && Pending(name[..], sponsor, so, cp) && Pending(name[..], revision, r, cp)
  {
    ghost var m := Take(s2, '+', "+,_");
    ghost var sp := Take(m.1, '+', ",_");
    ghost var so := Take(sp.1, ',', "_");
    ghost var r := Take(so.1, '_', "");
    EndsEmpty(s2);
    hide Take, Span, Pending, NoNul;
    ghost var b0 := name[..];
    modifier, cp := TakePart(name, start, '+', "+,_", s2);
    ghost var b1, p1 := name[..], cp;
    special, cp := TakePart(name, cp, '+', ",_", m.1);
    ghost var b2, p2 := name[..], cp;
    CutTwice(b0, b1, b2, start, p1, p2);
    StillPending(b1, b2, modifier, m.0, p1, p2);
    sponsor, cp := TakePart(name, cp, ',', "_", sp.1);
    ghost var b3, p3 := name[..], cp;
    CutTwice(b0, b2, b3, start, p2, p3);
    StillPending(b2, b3, modifier, m.0, p2, p3);
    StillPending(b2, b3, special, sp.0, p2, p3);
    revision, cp := TakePart(name, cp, '_', "", so.1);
    ghost var b4, p4 := name[..], cp;
    CutTwice(b0, b3, b4, start, p3, p4);
    StillPending(b3, b4, modifier, m.0, p3, p4);
    StillPending(b3, b4, special, sp.0, p3, p4);
    StillPending(b3, b4, sponsor, so.0, p3, p4);
    SliceOf(name[..], cp, r.1);
  }

  /** Nothing of the name is left after its revision. */
  lemma EndsEmpty(s2: string)
    requires s2 == [] || s2[0] in "+,_"
    ensures var s3 := Take(s2, '+', "+,_").1;
      var s4 := Take(s3, '+', ",_").1;
      var s5 := Take(s4, ',', "_").1;
      Take(s5, '_', "").1 == []
  {
  }

  /** The codeset's own bit for its normalized form, decided while the modifier still follows it in the buffer. */
  method CompareNormalized(name: array<char>, codeset: nat, cp: nat, ghost c: string, ghost s2: string)
    returns (differs: bool)
    requires codeset + |c| == cp < name.Length && name[codeset..cp] == c
    requires Untouched(name[..], cp, s2) && (s2 == [] || s2[0] == '@')
    ensures differs <==> c != "" && (s2 != [] || Normalized(c) != c)
  {
    if codeset == cp {
      return false;
    }
    var normalized := NormalizeCodeset(name[codeset..cp]);
    var whole := name[codeset..name.Length - 1];
    assert whole == c + s2 by {
      SliceOf(name[..], cp, s2);
      assert name[codeset..name.Length - 1] == name[codeset..cp] + name[cp..cp + |s2|];
    }
    assert normalized[..normalized.Length - 1] == Normalized(c);
    differs := whole != normalized[..normalized.Length - 1];
    NormalizeIdempotent(c);
    if s2 != [] {
      assert whole[|c|] == '@';
    }
    if s2 == [] {
      assert whole == c;
    }
  }

  /** What is left to do after language, territory and codeset; `end` is the end of the string. */
  method ExplodeTail(name: array<char>, start: nat, xpg: bool, ghost s2: string)
    returns (syntax: Syntax, modifier: Option<nat>, special: Option<nat>, sponsor: Option<nat>, revision: Option<nat>)
    requires Untouched(name[..], start, s2) && (s2 == [] || s2[0] in "@+,_") && (xpg ==> s2 == [] || s2[0] == '@')
    modifies name
    ensures CutBetween(old(name[..]), name[..], start, name.Length - 1) && name[name.Length - 1] == '\0'
    ensures var r := ExplodeRest(s2, xpg);
      && syntax == r.syntax
      && Pending(name[..], modifier, r.modifier, name.Length - 1)
      && Pending(name[..], special, r.special, name.Length - 1)
      && Pending(name[..], sponsor, r.sponsor, name.Length - 1)
      && Pending(name[..], revision, r.revision, name.Length - 1)
  {
    hide Take, Span, NoNul;
    SliceOf(name[..], start, s2);
    modifier, special, sponsor, revision := None, None, None, None;
    if name[start] == '@' {
      CutHere(name[..], start, s2);
      name[start] := '\0';
      assert name[..] == old(name[..])[start := '\0'];
      SliceOf(name[..], start + 1, s2[1..]);
      syntax, modifier := Xpg, Some(start + 1);
    } else if xpg {
      syntax := Xpg;
    } else {
      syntax := if name[start] == '\0' then Undecided else Cen;
      var cp;
      modifier, special, sponsor, revision, cp := ExplodeCen(name, start, s2);
    }
  }

  /** A pointer leads to the empty string just when the character there is the NUL. */
  lemma EmptyPart(buf: seq<char>, off: Option<nat>, part: Option<string>)
    requires Points(buf, off, part) && NoNul(part.GetOr(""))
    ensures off.Some? <==> part.Some?
    ensures off.Some? ==> off.value < |buf| && (buf[off.value] == '\0' <==> part.value == "")
  {
  }

  /** The bits for the pointers that are set; empty parts of an XPG name lose theirs again. */
  method MaskOf(buf: seq<char>, syntax: Syntax, p: Pointers, normalized: bool, ghost x: Exploded) returns (mask: nat)
    requires AllPoint(buf, p, x) && syntax == x.syntax && normalized == NeedsNormalized(x)
    requires NoNul(x.territory.GetOr("")) && NoNul(x.codeset.GetOr("")) && NoNul(x.modifier.GetOr(""))
    ensures mask == Mask(x)
  {
    EmptyPart(buf, p.territory, x.territory);
    EmptyPart(buf, p.codeset, x.codeset);
    EmptyPart(buf, p.modifier, x.modifier);
    hide Normalized, NeedsNormalized, NoNul, IsPart;
    mask := (if p.territory.Some? then TERRITORY else 0) + (if p.codeset.Some? then XPG_CODESET else 0)
      + (if normalized then XPG_NORM_CODESET else 0)
      + (if p.modifier.Some? then XPG_MODIFIER + CEN_AUDIENCE else 0) + (if p.special.Some? then CEN_SPECIAL else 0)
      + (if p.sponsor.Some? then CEN_SPONSOR else 0) + (if p.revision.Some? then CEN_REVISION else 0);
    if syntax == Xpg {
      if p.territory.Some? && buf[p.territory.value] == '\0' {
        mask := mask - TERRITORY;
      }
      if p.codeset.Some? && buf[p.codeset.value] == '\0' {
        mask := mask - XPG_CODESET;
      }
      if p.modifier.Some? && buf[p.modifier.value] == '\0' {
        mask := mask - XPG_MODIFIER;
      }
    }
  }

  /** `_nl_explode_name`: cuts the name in place, sets the pointers to its parts and returns the mask. */
  method ExplodeName(name: array<char>, ghost s: string) returns (mask: nat, p: Pointers)
    requires Untouched(name[..], 0, s)
    modifies name
    ensures AllPoint(name[..], p, Explode(s)) && mask == Mask(Explode(s))
  {
    SliceOf(name[..], 0, s);
    NoNulParts(s);
    var n := ScanTo(name, 0, "_@+,", s);
    if n == 0 {
      p := Pointers(0, None, None, None, None, None, None);
      mask := MaskOf(name[..], Undecided, p, false, Explode(s));
      return;
    }
    ExplodeIsWhole(s);
    TailStarts(s);
    hide Explode, HeadOf, Mask;
    mask, p := ExplodeParts(name, n, HeadOf(s), s);
  }

  /** The same for a name that does not begin with a separator. */
  method ExplodeParts(name: array<char>, n: nat, ghost h: Head, ghost s: string) returns (mask: nat, p: Pointers)
    requires Untouched(name[..], 0, s) && n == Span(s, "_@+,") > 0 && h == HeadOf(s) && RestFits(h)
    requires var x := Whole(h);
      NoNul(x.territory.GetOr("")) && NoNul(x.codeset.GetOr("")) && NoNul(x.modifier.GetOr(""))
    modifies name
    ensures AllPoint(name[..], p, Whole(h)) && mask == Mask(Whole(h))
  {
    hide Take, Span, NoNul, Normalized, Mask, Whole, HeadOf, Pending, Untouched, AllPoint;
    var territory, codeset, cp := ExplodeHead(name, n, s);
    var normalized := HeadNormalized(name, territory, codeset, cp, h);
    var syntax, modifier, special, sponsor, revision := FinishExplode(name, cp, territory, codeset, h);
    p := Pointers(0, territory, codeset, modifier, special, sponsor, revision);
    mask := MaskOf(name[..], syntax, p, normalized, Whole(h));
  }

  /** What can follow a head. */
  predicate RestFits(h: Head) {
    (h.rest == [] || h.rest[0] in "@+,_") && (h.codeset.Some? ==> h.rest == [] || h.rest[0] == '@')
  }

  /** Whether the codeset differs from its normalized form, with all that still follows it. */
  method HeadNormalized(name: array<char>, ghost territory: Option<nat>, codeset: Option<nat>, cp: nat, ghost h: Head)
    returns (normalized: bool)
    requires cp < name.Length && HeadPending(name[..], territory, codeset, h, cp) && Untouched(name[..], cp, h.rest)
    requires codeset.Some? ==> h.codeset.Some? && codeset.value + |h.codeset.value| == cp
    requires RestFits(h)
    ensures normalized == NeedsNormalized(Whole(h))
  {
    hide Untouched, ExplodeRest, Normalized;
    RestModifier(h.rest, h.codeset.Some?);
    normalized := false;
    if codeset.Some? {
      normalized := CompareNormalized(name, codeset.value, cp, h.codeset.value, h.rest);
    }
  }

  /** The tail, and what it leaves of the parts found before. */
  method FinishExplode(name: array<char>, start: nat, territory: Option<nat>, codeset: Option<nat>, ghost h: Head)
    returns (syntax: Syntax, modifier: Option<nat>, special: Option<nat>, sponsor: Option<nat>, revision: Option<nat>)
    requires Untouched(name[..], start, h.rest) && HeadPending(name[..], territory, codeset, h, start) && RestFits(h)
    modifies name
    ensures AllPoint(name[..], Pointers(0, territory, codeset, modifier, special, sponsor, revision), Whole(h))
    ensures syntax == Whole(h).syntax
  {
    HeadCodeset(name[..], territory, codeset, h, start);
    hide ExplodeRest, Pending, IsPart, CutBetween, Untouched, HeadPending;
    ghost var b, end := name[..], name.Length - 1;
    syntax, modifier, special, sponsor, revision := ExplodeTail(name, start, codeset.Some?, h.rest);
    HeadClosed(b, name[..], territory, codeset, h, start, end);
    ghost var x := Whole(h);
    ClosedAtEnd(name[..], modifier, x.modifier, end);
    ClosedAtEnd(name[..], special, x.special, end);
    ClosedAtEnd(name[..], sponsor, x.sponsor, end);
    ClosedAtEnd(name[..], revision, x.revision, end);
  }

  lemma HeadCodeset(buf: seq<char>, territory: Option<nat>, codeset: Option<nat>, h: Head, cp: nat)
    requires HeadPending(buf, territory, codeset, h, cp)
    ensures codeset.Some? <==> h.codeset.Some?
  {
  }

  /** Cutting the rest closes the parts of the head. */
  lemma HeadClosed(before: seq<char>, after: seq<char>, territory: Option<nat>, codeset: Option<nat>, h: Head,
                   start: nat, end: nat)
    requires HeadPending(before, territory, codeset, h, start) && CutBetween(before, after, start, end)
    requires after[end] == '\0'
    ensures IsPart(after, 0, h.language) && Points(after, territory, h.territory) && Points(after, codeset, h.codeset)
  {
  }

  lemma NoNulTaken(s: string, sep: char, stops: string)
    requires NoNul(s)
    ensures NoNul(Take(s, sep, stops).1) && NoNul(Take(s, sep, stops).0.GetOr(""))
  {
    hide Span;
  }

  /** Cutting a C string into parts gives C strings. */
  lemma NoNulParts(s: string)
    requires NoNul(s)
    ensures var x := Explode(s);
      NoNul(x.territory.GetOr("")) && NoNul(x.codeset.GetOr("")) && NoNul(x.modifier.GetOr(""))
  {
    hide Span, Take;
    var n := Span(s, "_@+,");
    NoNulTaken(s[n..], '_', ".@+,_");
    var (territory, s1) := Take(s[n..], '_', ".@+,_");
    NoNulTaken(s1, '.', "@");
    NoNulTaken(s1, '+', "+,_");
    NoNulTaken(Take(s1, '.', "@").1, '+', "+,_");
  }

  lemma RestModifier(s2: string, xpg: bool)
    requires s2 == [] || s2[0] == '@' || !xpg
    ensures xpg ==> (ExplodeRest(s2, xpg).modifier.Some? <==> s2 != [])
  {
  }

  /** What can come after territory and codeset. */
  lemma TailStarts(s: string)
    requires Span(s, "_@+,") > 0
    ensures RestFits(HeadOf(s))
  {
  }
}
