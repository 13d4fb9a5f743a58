/** Looking a message up in a loaded catalogue (`_nl_find_msg` of intl/dcigettext.c). */
module Catalogue {
  import opened CStrings
  import opened HashString
  import opened Probing
  import opened Wrappers

  /** The tables of a `.mo` file: `orig` holds each original with its embedded NULs, `hashTab` the hash table. */
  datatype Domain = Domain(orig: seq<string>, hashTab: seq<nat>)

  /** The msgid of entry `i`, as `strcmp` sees it. */
  function Key(d: Domain, i: nat): string
    requires i < |d.orig|
  {
    UpToNul(d.orig[i])
  }

  /** The originals are sorted and distinct. */
  ghost predicate Sorted(d: Domain) {
    forall i, j :: 0 <= i < j < |d.orig| ==> StrCmp(Key(d, i), Key(d, j)) < 0
  }

  /** Step width of the probe. */
  function Increment(h: nat, size: nat): nat
    requires size > 2
  {
    1 + h % (size - 2)
  }

  /** The slot tried in round `k` for a string. */
  function SlotFor(d: Domain, s: string, k: nat): (r: nat)
    requires |d.hashTab| > 2
    ensures r < |d.hashTab|
  {
    Slot(HashValue(s), Increment(HashValue(s), |d.hashTab|), |d.hashTab|, k)
  }

  /** Slot `s` holds entry number `i` (the table stores `i + 1`, 0 marks a free slot). */
  predicate Holds(d: Domain, s: nat, i: nat) {
    s < |d.hashTab| && d.hashTab[s] == i + 1
  }

  /** Entry `i` is reachable: its probe meets it in round `k`, and no free slot before. */
  ghost predicate Reached(d: Domain, i: nat, k: nat)
    requires |d.hashTab| > 2 && i < |d.orig|
  {
    && Holds(d, SlotFor(d, Key(d, i), k), i)
    && forall j :: 0 <= j < k ==> d.hashTab[SlotFor(d, Key(d, i), j)] != 0
  }

  ghost predicate Reachable(d: Domain, i: nat)
    requires |d.hashTab| > 2 && i < |d.orig|
  {
    exists k: nat :: Reached(d, i, k)
  }

  /** The hash table as the format demands it: prime size, at least one free slot, every entry reachable. */
  ghost predicate WellHashed(d: Domain) {
    && |d.hashTab| > 2 && Prime(|d.hashTab|)
    && (exists s :: 0 <= s < |d.hashTab| && d.hashTab[s] == 0)
    && (forall s :: 0 <= s < |d.hashTab| ==> d.hashTab[s] <= |d.orig|)
    && (forall i :: 0 <= i < |d.orig| ==> Reachable(d, i))
  }

  /** The right answer to a lookup. */
  ghost predicate Answers(d: Domain, msgid: string, r: Option<nat>) {
    match r
    case Some(i) => i < |d.orig| && Key(d, i) == msgid
    case None => forall i :: 0 <= i < |d.orig| ==> Key(d, i) != msgid
  }

  /** There is only one right answer. */
  lemma AnswerUnique(d: Domain, msgid: string, r1: Option<nat>, r2: Option<nat>)
    requires Sorted(d) && Answers(d, msgid, r1) && Answers(d, msgid, r2)
    ensures r1 == r2
  {
    StrCmpEqual(msgid, msgid);
  }

  lemma UpToNulLength(data: string)
    ensures |UpToNul(data)| <= |data|
  {
  }

  /** A probe that has met neither a free slot nor the msgid in `k` rounds has not used up the table. */
  lemma FreeSlotAhead(d: Domain, s: string, k: nat)
    requires WellHashed(d)
    requires forall j :: 0 <= j < k ==> d.hashTab[SlotFor(d, s, j)] != 0
    ensures k < |d.hashTab|
  {
    var free :| 0 <= free < |d.hashTab| && d.hashTab[free] == 0;
    var h := HashValue(s);
    var t := EverySlotTried(h, Increment(h, |d.hashTab|), |d.hashTab|, free);
    assert SlotFor(d, s, t) == free;
  }

  /** A free slot in round `k` of the probe proves that the msgid is not in the catalogue. */
  lemma MissIsMiss(d: Domain, msgid: string, k: nat)
    requires WellHashed(d) && d.hashTab[SlotFor(d, msgid, k)] == 0
    requires forall j :: 0 <= j < k ==>
      forall i :: 0 <= i < |d.orig| && Holds(d, SlotFor(d, msgid, j), i) ==> Key(d, i) != msgid
    ensures Answers(d, msgid, None)
  {
    forall i | 0 <= i < |d.orig|
      ensures Key(d, i) != msgid
    {
      assert Reachable(d, i);
      var r: nat :| Reached(d, i, r);
    }
  }

  /** The hash branch: probe until a free slot or the msgid turns up. */
  method FindByHash(d: Domain, msgid: string) returns (act: Option<nat>)
    requires WellHashed(d)
    ensures Answers(d, msgid, act)
  {
    hide HashValue, Slot;
    var size := |d.hashTab|;
    var hash_val := HashValue(msgid);
    var idx := hash_val % size;
    var incr := 1 + hash_val % (size - 2);
    ghost var k: nat := 0;
    FirstSlot(d, msgid);
    FreeSlotAhead(d, msgid, 0);
    while true
      invariant idx == SlotFor(d, msgid, k) < size && k < size
      invariant forall j :: 0 <= j < k ==> d.hashTab[SlotFor(d, msgid, j)] != 0
      invariant forall j :: 0 <= j < k ==>
                  forall i :: 0 <= i < |d.orig| && Holds(d, SlotFor(d, msgid, j), i) ==> Key(d, i) != msgid
      decreases size - k
    {
      var nstr := d.hashTab[idx];
      if nstr == 0 {
        MissIsMiss(d, msgid, k);
        return None;
      }
      StrCmpEqual(msgid, Key(d, nstr - 1));
      UpToNulLength(d.orig[nstr - 1]);
      if |d.orig[nstr - 1]| >= |msgid| && StrCmp(msgid, UpToNul(d.orig[nstr - 1])) == 0 {
        return Some(nstr - 1);
      }
      NextSlot(d, msgid, k);
      FreeSlotAhead(d, msgid, k + 1);
      if idx >= size - incr {
        idx := idx - (size - incr);
      } else {
        idx := idx + incr;
      }
      k := k + 1;
    }
  }

  lemma FirstSlot(d: Domain, s: string)
    requires |d.hashTab| > 2
    ensures SlotFor(d, s, 0) == HashValue(s) % |d.hashTab|
  {
  }

  lemma NextSlot(d: Domain, s: string, k: nat)
    requires |d.hashTab| > 2
    ensures var idx, incr, size := SlotFor(d, s, k), Increment(HashValue(s), |d.hashTab|), |d.hashTab|;
      SlotFor(d, s, k + 1) == if idx >= size - incr then idx - (size - incr) else idx + incr
    ensures SlotFor(d, s, k + 1) < |d.hashTab|
  {
    SlotNext(HashValue(s), Increment(HashValue(s), |d.hashTab|), |d.hashTab|, k);
  }

  /** The fallback: binary search in the sorted originals. */
  method FindByBisection(d: Domain, msgid: string) returns (act: Option<nat>)
    requires Sorted(d)
    ensures Answers(d, msgid, act)
  {
    var bottom, top := 0, |d.orig|;
    while bottom < top
      invariant 0 <= bottom <= top <= |d.orig|
      invariant forall i :: 0 <= i < bottom ==> StrCmp(Key(d, i), msgid) < 0
      invariant forall i :: top <= i < |d.orig| ==> StrCmp(msgid, Key(d, i)) < 0
    {
      var mid := (bottom + top) / 2;
      var cmp_val := StrCmp(msgid, UpToNul(d.orig[mid]));
      if cmp_val < 0 {
        forall i | mid < i < |d.orig|
          ensures StrCmp(msgid, Key(d, i)) < 0
        {
          StrCmpTransitive(msgid, Key(d, mid), Key(d, i));
        }
        top := mid;
      } else if cmp_val > 0 {
        StrCmpMirror(Key(d, mid), msgid);
        forall i | 0 <= i < mid
          ensures StrCmp(Key(d, i), msgid) < 0
        {
          StrCmpTransitive(Key(d, i), Key(d, mid), msgid);
        }
        bottom := mid + 1;
      } else {
        StrCmpEqual(msgid, Key(d, mid));
        return Some(mid);
      }
    }
    StrCmpEqual(msgid, msgid);
    return None;
  }

  /** Both searches give the one right answer, so it does not matter which of them the file allows. */
  method FindMsg(d: Domain, msgid: string) returns (act: Option<nat>)
    requires Sorted(d) && (|d.hashTab| > 2 ==> WellHashed(d))
    ensures Answers(d, msgid, act)
    ensures forall r :: Answers(d, msgid, r) ==> r == act
  {
    if |d.hashTab| > 2 {
      act := FindByHash(d, msgid);
    } else {
      act := FindByBisection(d, msgid);
    }
    forall r | Answers(d, msgid, r)
      ensures r == act
    {
      AnswerUnique(d, msgid, r, act);
    }
  }

  // ----- a catalogue from literal numbers -----

  /** The entry for the empty string, one with a plural, and one whose probe finds its slot taken. */
  const SMALL: Domain := Domain(["", "AB\0ABs", "AG"], [1, 2, 0, 3, 0])

  lemma SmallIsWellFormed()
    ensures Sorted(SMALL) && WellHashed(SMALL)
    ensures Key(SMALL, 0) == "" && Key(SMALL, 1) == "AB" && Key(SMALL, 2) == "AG"
  {
    SmallKeys();
    FiveIsPrime();
    SmallKeysSorted();
    SmallReachable();
    SmallTable();
    hide UpToNul, Reachable, Prime, StrCmp, Sorted;
  }

  lemma SmallTable()
    ensures SMALL.hashTab[2] == 0 && |SMALL.hashTab| == 5 && |SMALL.orig| == 3
    ensures forall s :: 0 <= s < 5 ==> SMALL.hashTab[s] <= 3
  {
  }

  lemma SmallReachable()
    ensures Reachable(SMALL, 0) && Reachable(SMALL, 1) && Reachable(SMALL, 2)
  {
    SmallKeys();
    hide UpToNul, HashValue, Reached;
    SmallReached();
  }

  lemma SmallKeysSorted()
    ensures Sorted(SMALL)
  {
    SmallKeys();
    hide UpToNul, StrCmp;
    SmallSorted();
  }

  lemma FiveIsPrime()
    ensures Prime(5)
  {
    assert 5 % 2 == 1 && 5 % 3 == 2 && 5 % 4 == 1;
  }

  lemma SmallSorted()
    ensures StrCmp("", "AB") < 0 && StrCmp("", "AG") < 0 && StrCmp("AB", "AG") < 0
  {
    assert "AB"[1..] == "B" && "AG"[1..] == "G";
    assert StrCmp("AB", "AG") == StrCmp("B", "G");
  }

  lemma SmallReached()
    requires Key(SMALL, 0) == "" && Key(SMALL, 1) == "AB" && Key(SMALL, 2) == "AG"
    ensures Reached(SMALL, 0, 0) && Reached(SMALL, 1, 0) && Reached(SMALL, 2, 1)
  {
    HashOfShort();
    hide HashValue, UpToNul;
    assert SlotFor(SMALL, "", 0) == 0 && SlotFor(SMALL, "AB", 0) == 1;
    assert SlotFor(SMALL, "AG", 0) == 1 && SlotFor(SMALL, "AG", 1) == 3;
  }

  lemma SmallKeys()
    ensures UpToNul("") == "" && UpToNul("AB\0ABs") == "AB" && UpToNul("AG") == "AG"
  {
    var x, y := "AB\0ABs", "AG";
    assert x[1..][1..][0] == '\0' && y[1..] == "G" && y[1..][1..] == "";
    assert UpToNul(x[1..][1..]) == "" && UpToNul(y[1..][1..]) == "";
    assert UpToNul(x[1..]) == ['B'] + UpToNul(x[1..][1..]);
    assert UpToNul(y[1..]) == ['G'] + UpToNul(y[1..][1..]);
  }

  /** The messages are found through the table, and one that is not there is missed. */
  method FindInSmall(msgid: string) returns (act: Option<nat>)
    ensures act == if msgid == "" then Some(0) else if msgid == "AB" then Some(1)
                   else if msgid == "AG" then Some(2) else None
  {
    SmallIsWellFormed();
    hide WellHashed, Sorted;
    act := FindMsg(SMALL, msgid);
  }
}
