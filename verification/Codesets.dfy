/** `_nl_normalize_codeset` of intl/l10nflist.c, in the "C" locale. */
module Codesets {

  predicate IsLower(c: char) {
    'a' <= c <= 'z'
  }

  predicate IsUpper(c: char) {
    'A' <= c <= 'Z'
  }

  predicate IsAlpha(c: char) {
    IsLower(c) || IsUpper(c)
  }

  predicate IsDigit(c: char) {
    '0' <= c <= '9'
  }

  predicate IsAlnum(c: char) {
    IsAlpha(c) || IsDigit(c)
  }

  function ToLower(c: char): char {
    if IsUpper(c) then (c as int + 32) as char else c
  }

  /** The letters and digits of `s`, in lower case. */
  function Kept(s: string): string {
    if s == [] then []
    else if IsAlnum(s[|s| - 1]) then Kept(s[..|s| - 1]) + [ToLower(s[|s| - 1])]
    else Kept(s[..|s| - 1])
  }

  predicate HasAlpha(s: string) {
    exists i :: 0 <= i < |s| && IsAlpha(s[i])
  }

  /** A codeset of digits only is taken for an ISO standard. */
  function Normalized(s: string): string {
    (if HasAlpha(s) then "" else "iso") + Kept(s)
  }

  /** Only lower-case letters and digits. */
  predicate Canonical(s: string) {
    forall i :: 0 <= i < |s| ==> IsLower(s[i]) || IsDigit(s[i])
  }

  lemma {:induction false} KeptCanonical(s: string)
    ensures Canonical(Kept(s))
    ensures HasAlpha(s) <==> HasAlpha(Kept(s))
  {
    if s != [] {
      var t, c := s[..|s| - 1], s[|s| - 1];
      KeptCanonical(t);
      if HasAlpha(s) {
        var i :| 0 <= i < |s| && IsAlpha(s[i]);
        if i < |t| {
          assert IsAlpha(t[i]);
          var j :| 0 <= j < |Kept(t)| && IsAlpha(Kept(t)[j]);
          assert IsAlpha(Kept(s)[j]);
        } else {
          assert IsAlpha(Kept(s)[|Kept(t)|]);
        }
      }
      if HasAlpha(Kept(s)) {
        var j :| 0 <= j < |Kept(s)| && IsAlpha(Kept(s)[j]);
        if j < |Kept(t)| {
          assert IsAlpha(Kept(t)[j]);
          var i :| 0 <= i < |t| && IsAlpha(t[i]);
          assert IsAlpha(s[i]);
        } else {
          assert IsAlpha(s[|t|]);
        }
      }
    }
  }

  lemma {:induction false} KeptOfCanonical(s: string)
    requires Canonical(s)
    ensures Kept(s) == s
  {
    if s != [] {
      KeptOfCanonical(s[..|s| - 1]);
    }
  }

  /** Normalizing twice is normalizing once, for every string, the empty one included. */
  lemma NormalizeIdempotent(s: string)
    ensures Normalized(Normalized(s)) == Normalized(s)
    ensures Canonical(Normalized(s))
  {
    KeptCanonical(s);
    var n := Normalized(s);
    assert Canonical(n);
    assert HasAlpha(n) by {
      if HasAlpha(s) {
        assert n == Kept(s);
      } else {
        assert IsAlpha(n[0]);
      }
    }
    KeptOfCanonical(n);
  }

  /** Two passes: the first counts, the second writes exactly as many characters as were counted. */
  method NormalizeCodeset(codeset: string) returns (retval: array<char>)
    ensures fresh(retval)
    ensures retval[..] == Normalized(codeset) + ['\0']
  {
    hide Kept, HasAlpha, IsLower, IsUpper, IsDigit;
    NothingKept();
    var len := 0;
    var onlyDigit := true;
    for cnt := 0 to |codeset|
      invariant len == |Kept(codeset[..cnt])|
      invariant onlyDigit <==> !HasAlpha(codeset[..cnt])
    {
      OneKept(codeset, cnt);
      AlphaSnoc(codeset[..cnt], codeset[cnt]);
      assert codeset[..cnt + 1] == codeset[..cnt] + [codeset[cnt]];
      if IsAlnum(codeset[cnt]) {
        len := len + 1;
        if IsAlpha(codeset[cnt]) {
          onlyDigit := false;
        }
      }
    }
    assert codeset[..|codeset|] == codeset;
    retval := new char[(if onlyDigit then 3 else 0) + len + 1];
    var wp := 0;
    if onlyDigit {
      retval[0], retval[1], retval[2] := 'i', 's', 'o';
      wp := 3;
    }
    ghost var prefix := if onlyDigit then "iso" else "";
    assert retval[..wp] == prefix + Kept(codeset[..0]);
    for cnt := 0 to |codeset|
      invariant wp == |prefix| + |Kept(codeset[..cnt])|
      invariant wp < retval.Length
      invariant retval[..wp] == prefix + Kept(codeset[..cnt])
    {
      OneKept(codeset, cnt);
      KeptMonotone(codeset, cnt + 1);
      ghost var before := retval[..wp];
      if IsAlpha(codeset[cnt]) {
        retval[wp] := ToLower(codeset[cnt]);
        wp := wp + 1;
        assert retval[..wp] == before + [ToLower(codeset[cnt])];
      } else if IsDigit(codeset[cnt]) {
        retval[wp] := codeset[cnt];
        wp := wp + 1;
        assert retval[..wp] == before + [codeset[cnt]];
      }
    }
    assert retval[..wp] == Normalized(codeset);
    retval[wp] := '\0';
    assert retval[..] == retval[..wp] + ['\0'];
  }

  lemma NothingKept()
    ensures Kept("") == "" && !HasAlpha("")
  {
  }

  lemma OneKept(s: string, k: nat)
    requires k < |s|
    ensures Kept(s[..k + 1])
         == Kept(s[..k]) + if IsAlpha(s[k]) then [ToLower(s[k])] else if IsDigit(s[k]) then [s[k]] else []
  {
    assert s[..k + 1][..k] == s[..k];
    assert IsDigit(s[k]) ==> ToLower(s[k]) == s[k];
    assert Kept(s[..k]) + [] == Kept(s[..k]);
  }

  lemma AlphaSnoc(s: string, c: char)
    ensures HasAlpha(s + [c]) <==> HasAlpha(s) || IsAlpha(c)
  {
    if HasAlpha(s) {
      var i :| 0 <= i < |s| && IsAlpha(s[i]);
      assert IsAlpha((s + [c])[i]);
    } else if IsAlpha(c) {
      assert IsAlpha((s + [c])[|s|]);
    }
  }

  lemma {:induction false} KeptMonotone(s: string, k: nat)
    requires k <= |s|
    ensures |Kept(s[..k])| <= |Kept(s)|
    decreases |s| - k
  {
    if k < |s| {
      assert s[..k + 1][..k] == s[..k];
      KeptMonotone(s, k + 1);
    } else {
      assert s[..k] == s;
    }
  }

  // ----- what is kept -----

  /** The positions of the letters and digits, in order. */
  ghost predicate AreKept(s: string, at: seq<nat>) {
    && (forall k :: 0 <= k < |at| ==> at[k] < |s| && IsAlnum(s[at[k]]))
    && (forall j, k :: 0 <= j < k < |at| ==> at[j] < at[k])
    && (forall i :: 0 <= i < |s| && IsAlnum(s[i]) ==> i in at)
  }

  /** A capital made small, and any other character as it is. */
  ghost predicate MadeSmall(s: string, at: seq<nat>, x: string) {
    && |x| == |at|
    && forall k :: 0 <= k < |at| ==>
         at[k] < |s| && x[k] == if 'A' <= s[at[k]] <= 'Z' then s[at[k]] - 'A' + 'a' else s[at[k]]
  }

  /** The normalized name is made of exactly the letters and digits, in their order, with capitals made small; in front
      of them stands "iso" exactly if there is no letter among them. */
  lemma {:induction false} KeptInOrder(s: string) returns (at: seq<nat>)
    ensures AreKept(s, at) && MadeSmall(s, at, Kept(s))
  {
    if s == [] {
      at := [];
    } else {
      var n := |s| - 1;
      at := KeptInOrder(s[..n]);
      hide AreKept, MadeSmall, IsAlnum, ToLower;
      MoreKept(s, n, at, Kept(s[..n]));
      if IsAlnum(s[n]) {
        at := at + [n];
      }
    }
  }

  lemma MoreKept(s: string, n: nat, at: seq<nat>, x: string)
    requires |s| == n + 1 && AreKept(s[..n], at) && MadeSmall(s[..n], at, x)
    ensures !IsAlnum(s[n]) ==> AreKept(s, at) && MadeSmall(s, at, x)
    ensures IsAlnum(s[n]) ==> AreKept(s, at + [n]) && MadeSmall(s, at + [n], x + [ToLower(s[n])])
  {
    var t := s[..n];
    assert forall i :: 0 <= i < n ==> t[i] == s[i];
    if IsAlnum(s[n]) {
      LastKept(s, n, at, x);
    } else {
      hide IsAlnum;
      forall i | 0 <= i < |s| && IsAlnum(s[i])
        ensures i in at
      {
        assert t[i] == s[i];
      }
    }
  }

  lemma LastKept(s: string, n: nat, at: seq<nat>, x: string)
    requires |s| == n + 1 && AreKept(s[..n], at) && MadeSmall(s[..n], at, x) && IsAlnum(s[n])
    ensures AreKept(s, at + [n]) && MadeSmall(s, at + [n], x + [ToLower(s[n])])
  {
    var t := s[..n];
    assert ToLower(s[n]) == if 'A' <= s[n] <= 'Z' then s[n] - 'A' + 'a' else s[n];
    hide IsAlnum, ToLower;
    forall i | 0 <= i < |s| && IsAlnum(s[i])
      ensures i in at + [n]
    {
      assert i < n ==> t[i] == s[i];
      assert (at + [n])[|at|] == n;
    }
  }

  lemma NormalizedIs(s: string)
    ensures Normalized(s) == if exists i :: 0 <= i < |s| && ('a' <= s[i] <= 'z' || 'A' <= s[i] <= 'Z') then Kept(s)
                             else "iso" + Kept(s)
  {
    hide Kept;
    if HasAlpha(s) {
      var i :| 0 <= i < |s| && IsAlpha(s[i]);
      assert 'a' <= s[i] <= 'z' || 'A' <= s[i] <= 'Z';
    }
  }

  lemma KeptSnoc(s: string, c: char, more: string, x: string, y: string)
    requires more == s + [c] && Kept(s) == x
    requires y == if IsAlnum(c) then x + [ToLower(c)] else x
    ensures Kept(more) == y
  {
    assert more[..|s|] == s;
    hide IsAlnum, ToLower;
  }

  lemma NormalizedByExample()
    ensures Normalized("8859-1") == "iso88591" && Normalized("UTF-8") == "utf8" && Normalized("-") == "iso"
  {
    KeptNumber();
    KeptUtf8();
    NothingKept();
    KeptSnoc("", '-', "-", "", "");
    assert IsAlpha("UTF-8"[0]);
    assert "iso" + "88591" == "iso88591" && "" + "utf8" == "utf8" && "iso" + "" == "iso";
    hide Kept;
  }

  lemma KeptNumber()
    ensures Kept("8859-1") == "88591"
  {
    NothingKept();
    hide Kept;
    KeptSnoc("", '8', "8", "", "8");
    KeptSnoc("8", '8', "88", "8", "88");
    KeptSnoc("88", '5', "885", "88", "885");
    KeptSnoc("885", '9', "8859", "885", "8859");
    KeptSnoc("8859", '-', "8859-", "8859", "8859");
    KeptSnoc("8859-", '1', "8859-1", "8859", "88591");
  }

  lemma KeptUtf8()
    ensures Kept("UTF-8") == "utf8"
  {
    NothingKept();
    hide Kept;
    KeptSnoc("", 'U', "U", "", "u");
    KeptSnoc("U", 'T', "UT", "u", "ut");
    KeptSnoc("UT", 'F', "UTF", "ut", "utf");
    KeptSnoc("UTF", '-', "UTF-", "utf", "utf");
    KeptSnoc("UTF-", '8', "UTF-8", "utf", "utf8");
  }
}
