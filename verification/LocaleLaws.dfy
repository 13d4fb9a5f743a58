/** Names in CEN syntax taken apart and put together again, and the masks of both syntaxes in numbers
    (intl/explodename.c:60-196, intl/loadinfo.h). */
module LocaleLaws {
  import opened Codesets
  import opened LocaleExplode
  import opened LocaleNames
  import opened Wrappers

  /** A name of the form `L[_T][+A[+S]][,P][_R]`, where at least one part stands between a language and a revision. */
  predicate CenParts(language: string, territory: Option<string>, audience: Option<string>, special: Option<string>,
                     sponsor: Option<string>, revision: Option<string>) {
    && language != "" && Avoids(language, "_@+,")
    && (territory.Some? ==> Avoids(territory.value, ".@+,_"))
    && (audience.Some? ==> Avoids(audience.value, "+,_"))
    && (special.Some? ==> audience.Some? && Avoids(special.value, ",_"))
    && (sponsor.Some? ==> Avoids(sponsor.value, "_"))
    && (revision.Some? ==> territory.Some? || audience.Some? || sponsor.Some?)
  }

  function CenTail(audience: Option<string>, special: Option<string>, sponsor: Option<string>,
                   revision: Option<string>): string {
    Written('+', audience) + (Written('+', special) + (Written(',', sponsor) + Written('_', revision)))
  }

  /** What stands behind language and territory is taken apart into the parts it was written from. */
  lemma CenTaken(audience: Option<string>, special: Option<string>, sponsor: Option<string>, revision: Option<string>)
    requires audience.Some? ==> Avoids(audience.value, "+,_")
    requires special.Some? ==> audience.Some? && Avoids(special.value, ",_")
    requires sponsor.Some? ==> Avoids(sponsor.value, "_")
    ensures var tail := CenTail(audience, special, sponsor, revision);
      && Take(tail, '.', "@") == (None, tail)
      && ExplodeRest(tail, false) == Rest(if tail == [] then Undecided else Cen, audience, special, sponsor, revision)
  {
    hide Take, Avoids, Written, ExplodeRest;
    var s5 := Written('_', revision);
    var s4 := Written(',', sponsor) + s5;
    var s3 := Written('+', special) + s4;
    var tail := Written('+', audience) + s3;
    CenStarts(audience, special, sponsor, revision);
    TakenInTurn(special, sponsor, revision);
    TakenBack('+', audience, s3, "+,_");
    NotTaken(tail, '.', "@");
    RestFrom(tail, audience, s3, special, s4, sponsor, s5, revision);
  }

  lemma TakenInTurn(special: Option<string>, sponsor: Option<string>, revision: Option<string>)
    requires special.Some? ==> Avoids(special.value, ",_")
    requires sponsor.Some? ==> Avoids(sponsor.value, "_")
    ensures var s5 := Written('_', revision);
      var s4 := Written(',', sponsor) + s5;
      && Take(s5, '_', "") == (revision, []) && Take(s4, ',', "_") == (sponsor, s5)
      && Take(Written('+', special) + s4, '+', ",_") == (special, s4)
  {
    hide Take, Avoids, Written;
    var s5 := Written('_', revision);
    var s4 := Written(',', sponsor) + s5;
    AvoidsNothing(revision);
    WrittenStarts('_', revision, []);
    assert s5 + [] == s5;
    TakenBack('_', revision, [], "");
    TakenBack(',', sponsor, s5, "_");
    WrittenStarts(',', sponsor, s5);
    TakenBack('+', special, s4, ",_");
  }

  lemma RestFrom(s2: string, modifier: Option<string>, s3: string, special: Option<string>, s4: string,
                 sponsor: Option<string>, s5: string, revision: Option<string>)
    requires !Starts(s2, '@') && Take(s2, '+', "+,_") == (modifier, s3) && Take(s3, '+', ",_") == (special, s4)
    requires Take(s4, ',', "_") == (sponsor, s5) && Take(s5, '_', "") == (revision, [])
    ensures ExplodeRest(s2, false)
         == Rest(if s2 == [] then Undecided else Cen, modifier, special, sponsor, revision)
  {
    hide Take;
  }

  lemma AvoidsNothing(part: Option<string>)
    ensures part.Some? ==> Avoids(part.value, "")
  {
  }

  lemma NotTaken(s: string, sep: char, stops: string)
    ensures s == [] || s[0] != sep ==> Take(s, sep, stops) == (None, s)
  {
  }

  /** Every CEN name is exploded into exactly the parts it was written from, and each part has its own bit in the mask,
      the audience that of an XPG modifier too. The name comes back unless it has a revision but no sponsor. */
  lemma CenRoundTrip(language: string, territory: Option<string>, audience: Option<string>, special: Option<string>,
                     sponsor: Option<string>, revision: Option<string>)
    requires CenParts(language, territory, audience, special, sponsor, revision)
    ensures var s := language + (Written('_', territory) + CenTail(audience, special, sponsor, revision));
      && Explode(s) == Exploded(if CenTail(audience, special, sponsor, revision) == [] then Undecided else Cen,
                                language, territory, None, audience, special, sponsor, revision)
      && Mask(Explode(s)) == (if revision.Some? then 1 else 0) + (if sponsor.Some? then 2 else 0)
                             + (if special.Some? then 4 else 0) + (if territory.Some? then 32 else 0)
                             + (if audience.Some? then 64 + 128 else 0)
      && (Recomposed(s) == s <==> revision.None? || sponsor.Some?)
  {
    var tail := CenTail(audience, special, sponsor, revision);
    var s0 := Written('_', territory) + tail;
    var s := language + s0;
    hide Take, Avoids, Written, ExplodeRest, CenTail, Recomposed, Span, Explode, Mask;
    CenTaken(audience, special, sponsor, revision);
    CenStarts(audience, special, sponsor, revision);
    TerritoryTaken(territory, tail);
    SpanOf(language, s0, "_@+,");
    assert s[..|language|] == language && s[|language|..] == s0;
    ExplodedFrom(s, language, territory, tail);
    MaskOfCen(Explode(s));
    RoundTripExactly(s);
  }

  lemma ExplodedFrom(s: string, language: string, territory: Option<string>, tail: string)
    requires language != "" && |language| <= |s| && Span(s, "_@+,") == |language| && s[..|language|] == language
    requires Take(s[|language|..], '_', ".@+,_") == (territory, tail) && Take(tail, '.', "@") == (None, tail)
    ensures var r := ExplodeRest(tail, false);
      Explode(s) == Exploded(r.syntax, language, territory, None, r.modifier, r.special, r.sponsor, r.revision)
  {
    hide Take, Span, ExplodeRest;
  }

  lemma CenStarts(audience: Option<string>, special: Option<string>, sponsor: Option<string>, revision: Option<string>)
    ensures var tail := CenTail(audience, special, sponsor, revision);
      && (tail == [] || tail[0] in "+,_") && !Starts(tail, '@') && !Starts(tail, '.')
      && (tail != [] && tail[0] == '_' ==> revision.Some? && audience.None? && special.None? && sponsor.None?)
  {
  }

  lemma TerritoryTaken(territory: Option<string>, tail: string)
    requires territory.Some? ==> Avoids(territory.value, ".@+,_")
    requires (tail == [] || tail[0] in "+,_") && (territory.None? ==> !Starts(tail, '_'))
    ensures Take(Written('_', territory) + tail, '_', ".@+,_") == (territory, tail)
    ensures Written('_', territory) + tail == [] || (Written('_', territory) + tail)[0] in "_@+,"
  {
    hide Take, Avoids;
    TakenBack('_', territory, tail, ".@+,_");
  }

  lemma MaskOfCen(x: Exploded)
    requires x.syntax != Xpg && x.codeset.None?
    ensures Mask(x) == (if x.revision.Some? then 1 else 0) + (if x.sponsor.Some? then 2 else 0)
                       + (if x.special.Some? then 4 else 0) + (if x.territory.Some? then 32 else 0)
                       + (if x.modifier.Some? then 64 + 128 else 0)
  {
  }

  /** The mask of an XPG name with non-empty parts. The modifier has the bit of a CEN audience too, and with it the
      codeset has that of the normalized codeset whether it is normalized or not. */
  lemma MaskOfXpg(language: string, territory: Option<string>, codeset: Option<string>, modifier: Option<string>)
    requires language != "" && Avoids(language, "_@+,")
    requires NonEmpty(territory) && NonEmpty(codeset) && NonEmpty(modifier) && (codeset.Some? ==> territory.Some?)
    requires territory.Some? ==> Avoids(territory.value, ".@+,_")
    requires codeset.Some? ==> Avoids(codeset.value, "@")
    ensures Mask(Explode(XpgName(language, territory, codeset, modifier)))
         == (if territory.Some? then 32 else 0) + (if modifier.Some? then 64 + 128 else 0)
            + (if codeset.None? then 0
               else if modifier.Some? || Normalized(codeset.value) != codeset.value then 8 + 16 else 16)
  {
    hide Take, Span, Avoids, Written, XpgName, Explode, Mask, Normalized;
    var s := XpgName(language, territory, codeset, modifier);
    XpgTaken(language, territory, codeset, modifier);
    ModifierTaken(modifier, codeset.Some?);
    XpgFrom(s, language, territory, codeset, Written('@', modifier));
    MaskOfParts(Explode(s));
  }

  lemma ModifierTaken(modifier: Option<string>, xpg: bool)
    ensures ExplodeRest(Written('@', modifier), xpg)
         == Rest(if xpg || modifier.Some? then Xpg else Undecided, modifier, None, None, None)
  {
  }

  lemma XpgFrom(s: string, language: string, territory: Option<string>, codeset: Option<string>, s2: string)
    requires language != "" && |language| <= |s| && Span(s, "_@+,") == |language| && s[..|language|] == language
    requires codeset.Some? ==> territory.Some?
    requires var s1 := Written('.', codeset) + s2;
      Take(s[|language|..], '_', ".@+,_") == (territory, s1) && Take(s1, '.', "@") == (codeset, s2)
    ensures var r := ExplodeRest(s2, codeset.Some?);
      Explode(s) == Exploded(r.syntax, language, territory, codeset, r.modifier, r.special, r.sponsor, r.revision)
  {
    hide Take, Span, ExplodeRest;
    if territory.None? {
      assert Written('.', codeset) + s2 == s2;
    }
  }

  lemma MaskOfParts(x: Exploded)
    requires x.revision.None? && x.sponsor.None? && x.special.None?
    requires NonEmpty(x.territory) && NonEmpty(x.codeset) && NonEmpty(x.modifier)
    ensures Mask(x) == (if x.territory.Some? then 32 else 0) + (if x.modifier.Some? then 64 + 128 else 0)
                       + (if x.codeset.None? then 0
                          else if x.modifier.Some? || Normalized(x.codeset.value) != x.codeset.value then 8 + 16
                          else 16)
  {
    hide Normalized;
  }

  /** Empty parts of an XPG name have no bit, but the modifier keeps that of a CEN audience. */
  lemma MaskOfEmptyParts()
    ensures Mask(Explode("de_.@")) == 64
  {
    hide Explode, Mask;
    EmptyParts();
    MaskOfBlanks(Explode("de_.@"));
  }

  lemma MaskOfBlanks(x: Exploded)
    requires x.syntax == Xpg && x.territory == x.codeset == x.modifier == Some("")
    requires x.revision.None? && x.sponsor.None? && x.special.None?
    ensures Mask(x) == 64
  {
    hide Normalized;
  }

  lemma EmptyParts()
    ensures Explode("de_.@") == Exploded(Xpg, "de", Some(""), Some(""), Some(""), None, None, None)
  {
    hide Take, Span, Avoids, Written, XpgName, Explode, ExplodeRest;
    NamesAvoid();
    EmptyName();
    XpgTaken("de", Some(""), Some(""), Some(""));
    ModifierTaken(Some(""), true);
    XpgFrom("de_.@", "de", Some(""), Some(""), Written('@', Some("")));
  }

  lemma NamesAvoid()
    ensures Avoids("de", "_@+,") && Avoids("", ".@+,_") && Avoids("", "@")
  {
  }

  lemma EmptyName()
    ensures XpgName("de", Some(""), Some(""), Some("")) == "de_.@"
  {
  }

  lemma CenExample()
    ensures Explode("fr_CH+a+b,c_d")
         == Exploded(Cen, "fr", Some("CH"), None, Some("a"), Some("b"), Some("c"), Some("d"))
    ensures Mask(Explode("fr_CH+a+b,c_d")) == 231
  {
    hide Explode, CenTail, Mask, Recomposed, Written, CenParts;
    ExampleParts();
    ExampleSpelt();
    CenRoundTrip("fr", Some("CH"), Some("a"), Some("b"), Some("c"), Some("d"));
  }

  lemma ExampleParts()
    ensures CenParts("fr", Some("CH"), Some("a"), Some("b"), Some("c"), Some("d"))
  {
  }

  lemma ExampleSpelt()
    ensures CenTail(Some("a"), Some("b"), Some("c"), Some("d")) == "+a+b,c_d"
    ensures "fr" + (Written('_', Some("CH")) + "+a+b,c_d") == "fr_CH+a+b,c_d"
  {
    assert ",c" + "_d" == ",c_d" && "+b" + ",c_d" == "+b,c_d" && "+a" + "+b,c_d" == "+a+b,c_d";
    assert "_CH" + "+a+b,c_d" == "_CH+a+b,c_d" && "fr" + "_CH+a+b,c_d" == "fr_CH+a+b,c_d";
  }
}
