/** The global list of locale files and its recursive construction (`_nl_make_l10nflist` of intl/l10nflist.c). */
module L10nList {
  import opened BitMasks
  import opened CStrings
  import opened LocaleNames
  import opened Wrappers

  /** `struct loaded_l10nfile`, without the loaded data. */
  class L10nFile {
    const filename: string
    const decided: bool
    const successor: array<L10nFile?>
    var next: L10nFile?
    /** the file names it falls back to, in this order */
    ghost const wants: seq<string>

    constructor (filename: string, decided: bool, slots: nat, ghost wants: seq<string>)
      ensures this.filename == filename && this.decided == decided && next == null && this.wants == wants
      ensures fresh(successor) && successor.Length == slots
    {
      this.filename, this.decided, next, this.wants := filename, decided, null, wants;
      successor := new L10nFile?[slots];
    }
  }

  /** File names in strictly descending order. */
  ghost predicate Descending(nodes: seq<L10nFile>) {
    forall i, j :: 0 <= i < j < |nodes| ==> StrCmp(nodes[i].filename, nodes[j].filename) > 0
  }

  ghost function NodeAt(nodes: seq<L10nFile>, i: nat): L10nFile? {
    if i < |nodes| then nodes[i] else null
  }

  /** `nodes` is the chain that starts at `head`. */
  ghost predicate Chain(head: L10nFile?, nodes: seq<L10nFile>)
    reads nodes
  {
    && head == NodeAt(nodes, 0)
    && (forall i {:trigger nodes[i].next} :: 0 <= i < |nodes| ==> nodes[i].next == NodeAt(nodes, i + 1))
  }

  /** `name` belongs strictly between the nodes before and from position `k`. */
  ghost predicate Fits(nodes: seq<L10nFile>, name: string, k: nat) {
    && k <= |nodes|
    && (forall i :: 0 <= i < k ==> StrCmp(nodes[i].filename, name) > 0)
    && (forall i :: k <= i < |nodes| ==> StrCmp(nodes[i].filename, name) < 0)
  }

  ghost predicate Listed(nodes: seq<L10nFile>, name: string) {
    exists i :: 0 <= i < |nodes| && nodes[i].filename == name
  }

  /** No two nodes have the same file name. */
  lemma OneNodePerName(nodes: seq<L10nFile>, i: nat, j: nat)
    requires Descending(nodes) && i < |nodes| && j < |nodes|
    ensures nodes[i].filename == nodes[j].filename <==> i == j
  {
    StrCmpEqual(nodes[i].filename, nodes[j].filename);
    StrCmpEqual(nodes[j].filename, nodes[i].filename);
  }

  lemma FitsFrom(nodes: seq<L10nFile>, name: string, k: nat)
    requires Descending(nodes) && k <= |nodes|
    requires forall i :: 0 <= i < k ==> StrCmp(nodes[i].filename, name) > 0
    requires k < |nodes| ==> StrCmp(nodes[k].filename, name) < 0
    ensures Fits(nodes, name, k)
  {
    hide StrCmp;
    forall i | k < i < |nodes|
      ensures StrCmp(nodes[i].filename, name) < 0
    {
      StrCmpMirror(nodes[i].filename, nodes[k].filename);
      StrCmpTransitive(nodes[i].filename, nodes[k].filename, name);
    }
  }

  lemma FitsMeansAbsent(nodes: seq<L10nFile>, name: string, k: nat)
    requires Fits(nodes, name, k)
    ensures !Listed(nodes, name)
  {
    hide StrCmp;
    StrCmpEqual(name, name);
  }

  lemma FitsInside(nodes: seq<L10nFile>, name: string, k: nat)
    requires Fits(nodes, name, k)
    ensures k <= |nodes|
  {
  }

  lemma InsertedDescending(nodes: seq<L10nFile>, b: L10nFile, k: nat)
    requires Descending(nodes) && Fits(nodes, b.filename, k)
    ensures Descending(nodes[..k] + [b] + nodes[k..])
  {
    hide StrCmp;
    forall i | k <= i < |nodes|
      ensures StrCmp(b.filename, nodes[i].filename) > 0
    {
      StrCmpMirror(nodes[i].filename, b.filename);
    }
  }

  /** Two pointers are enough to take a new node into the chain. */
  lemma LinkedIn(head: L10nFile?, before: seq<L10nFile>, b: L10nFile, k: nat)
    requires k <= |before| && b.next == NodeAt(before, k)
    requires forall i {:trigger before[i].next} :: 0 <= i < |before| ==>
               before[i].next == if i + 1 == k then b else NodeAt(before, i + 1)
    requires head == if k == 0 then b else NodeAt(before, 0)
    ensures Chain(head, before[..k] + [b] + before[k..])
  {
  }

  lemma SplicedMembers(before: seq<L10nFile>, b: L10nFile, k: nat)
    requires k <= |before|
    ensures (set c | c in before[..k] + [b] + before[k..]) == (set c | c in before) + {b}
  {
  }

  // ----- which files a node asks for -----

  /** The submasks a node descends into: never CEN-only together with XPG-only parts, nor both codesets. */
  predicate Wanted(cnt: nat, mask: nat) {
    && And(cnt, 0xffff_ffff - mask % 0x1_0000_0000) == 0
    && (!Has(cnt, CEN_SPECIFIC) || !Has(cnt, XPG_SPECIFIC))
    && (!Has(cnt, XPG_CODESET) || !Has(cnt, XPG_NORM_CODESET))
  }

  /** One request per directory, all with mask `cnt`. */
  function Row(dirs: seq<string>, cnt: nat, p: Parts, filename: string): (r: seq<string>)
    ensures |r| == |dirs|
  {
    seq(|dirs|, k requires 0 <= k < |dirs| => FileName([dirs[k]], cnt, p, filename))
  }

  /** The requests with masks from `cnt` down to 0, in this order. */
  function Requests(dirs: seq<string>, cnt: int, mask: nat, p: Parts, filename: string): seq<string>
    decreases cnt + 1
  {
    if cnt < 0 then []
    else (if Wanted(cnt, mask) then Row(dirs, cnt, p, filename) else []) + Requests(dirs, cnt - 1, mask, p, filename)
  }

  lemma RequestsNext(dirs: seq<string>, cnt: nat, mask: nat, p: Parts, filename: string, done: seq<string>)
    ensures done + Requests(dirs, cnt, mask, p, filename)
         == (if Wanted(cnt, mask) then done + Row(dirs, cnt, p, filename) else done)
            + Requests(dirs, cnt - 1, mask, p, filename)
    ensures Wanted(cnt, mask) ==>
      |done| + |dirs| <= |done + Requests(dirs, cnt, mask, p, filename)|
  {
    hide Row, Wanted;
  }

  lemma NoRequests(dirs: seq<string>, cnt: int, mask: nat, p: Parts, filename: string, done: seq<string>)
    requires cnt < 0
    ensures done + Requests(dirs, cnt, mask, p, filename) == done
  {
  }

  /** Where the descent starts: a node for a single directory does not ask for itself. */
  function FirstMask(dirs: seq<string>, mask: nat): int {
    if |dirs| == 1 then mask - 1 else mask
  }

  lemma WantedIsSubmask(cnt: nat, mask: nat)
    requires cnt < 0x1_0000_0000 && mask < 0x1_0000_0000 && Wanted(cnt, mask)
    ensures Submask(cnt, mask)
  {
    WordIsPow2();
    hide And, Has, Pow2, Submask;
    AndComplement(cnt, mask, 32);
  }

  lemma WordIsPow2()
    ensures Pow2(32) == 0x1_0000_0000
  {
    assert Pow2(8) == 256;
    assert Pow2(16) == 65536;
    assert Pow2(24) == 16777216;
  }

  lemma Products(n: nat, a: nat, b: nat)
    requires a <= b
    ensures n * a <= n * b && n * (a + 1) == n * a + n
  {
  }

  lemma {:induction false} RequestsBounded(dirs: seq<string>, cnt: int, mask: nat, p: Parts, filename: string,
                                           bound: nat)
    requires cnt < 0x1_0000_0000 && mask < 0x1_0000_0000
    requires forall c: nat :: c <= cnt && Submask(c, mask) ==> Rank(c, mask) < bound
    ensures |Requests(dirs, cnt, mask, p, filename)| <= |dirs| * bound
    decreases cnt + 1
  {
    hide Wanted, Submask, Rank;
    if cnt < 0 {
      Products(|dirs|, 0, bound);
    } else if Wanted(cnt, mask) {
      WantedIsSubmask(cnt, mask);
      var r := Rank(cnt, mask);
      forall c: nat | c <= cnt - 1 && Submask(c, mask)
        ensures Rank(c, mask) < r
      {
        RankMonotone(c, cnt, mask);
      }
      RequestsBounded(dirs, cnt - 1, mask, p, filename, r);
      Products(|dirs|, r + 1, bound);
      Products(|dirs|, r, r);
    } else {
      RequestsBounded(dirs, cnt - 1, mask, p, filename, bound);
    }
  }

  /** The slots allocated for a node hold all it asks for; one more holds the closing NULL. */
  lemma RequestsFit(dirs: seq<string>, mask: nat, p: Parts, filename: string)
    requires mask < 0x1_0000
    ensures |Requests(dirs, FirstMask(dirs, mask), mask, p, filename)| <= |dirs| * Pow2(Pop(mask))
  {
    hide Requests, Pop, Pow2, Submask, Rank;
    PopCounts(mask);
    forall c: nat | c <= FirstMask(dirs, mask) && Submask(c, mask)
      ensures Rank(c, mask) < Pow2(Pop(mask))
    {
      RankBelow(c, mask);
    }
    RequestsBounded(dirs, FirstMask(dirs, mask), mask, p, filename, Pow2(Pop(mask)));
  }

  /** The slots filled so far hold nodes of the list with the given names. */
  ghost predicate Filled(slots: array<L10nFile?>, names: seq<string>, nodes: seq<L10nFile>)
    reads slots
  {
    && |names| <= slots.Length
    && forall i :: 0 <= i < |names| ==> slots[i] != null && slots[i].filename == names[i] && slots[i] in nodes
  }

  lemma NoneFilled(slots: array<L10nFile?>, nodes: seq<L10nFile>)
    ensures Filled(slots, [], nodes)
  {
  }

  lemma FilledAmongMore(slots: array<L10nFile?>, names: seq<string>, nodes: seq<L10nFile>, more: seq<L10nFile>)
    requires Filled(slots, names, nodes) && forall b :: b in nodes ==> b in more
    ensures Filled(slots, names, more)
  {
  }

  ghost function SlotsOf(nodes: seq<L10nFile>): set<array<L10nFile?>> {
    set b | b in nodes :: b.successor
  }

  /** Every node, unless it is still being filled, has as successors exactly nodes with the names it falls back to. */
  ghost predicate AllSettled(nodes: seq<L10nFile>, pending: set<L10nFile>)
    reads SlotsOf(nodes)
  {
    && (forall b, c :: b in nodes && c in nodes && b.successor == c.successor ==> b == c)
    && (forall b :: b in nodes && b !in pending ==> Complete(b.successor, b.wants, nodes))
  }

  lemma MorePending(nodes: seq<L10nFile>, pending: set<L10nFile>, b: L10nFile)
    requires AllSettled(nodes, pending)
    ensures AllSettled(nodes, pending + {b})
  {
    hide Complete;
  }

  lemma OneFilled(nodes: seq<L10nFile>, pending: set<L10nFile>, b: L10nFile)
    requires AllSettled(nodes, pending) && Complete(b.successor, b.wants, nodes)
    ensures AllSettled(nodes, pending - {b})
  {
    hide Complete;
  }

  lemma SettledSpliced(before: seq<L10nFile>, b: L10nFile, k: nat, pending: set<L10nFile>)
    requires k <= |before| && AllSettled(before, pending) && b in pending && b.successor !in SlotsOf(before)
    ensures AllSettled(before[..k] + [b] + before[k..], pending)
  {
    hide Filled;
    var after := before[..k] + [b] + before[k..];
    forall c | c in after
      ensures c == b || (c in before && c.successor in SlotsOf(before))
    {
    }
    forall c | c in after && c !in pending
      ensures Complete(c.successor, c.wants, after)
    {
      FilledAmongMore(c.successor, c.wants, before, after);
    }
  }

  class L10nFileList {
    var head: L10nFile?
    ghost var nodes: seq<L10nFile>
    /** the nodes of which not all successors are there yet */
    ghost var pending: set<L10nFile>

    ghost function NodeSet(): set<L10nFile>
      reads this`nodes
    {
      set b | b in nodes
    }

    ghost predicate Valid()
      reads this, nodes, SlotsOf(nodes)
    {
      Linked() && Settled()
    }

    ghost predicate Linked()
      reads this`head, this`nodes, nodes
    {
      Chain(head, nodes) && Descending(nodes)
    }

    ghost predicate Settled()
      reads this`nodes, this`pending, SlotsOf(nodes)
    {
      AllSettled(nodes, pending)
    }

    constructor ()
      ensures Valid() && nodes == [] && pending == {}
    {
      head, nodes, pending := null, [], {};
    }

    /** Look for a file name; otherwise tell after which node it belongs. */
    method Search(name: string) returns (retval: L10nFile?, last: L10nFile?, ghost k: nat)
      requires Linked()
      ensures retval != null ==> retval in nodes && retval.filename == name && Listed(nodes, name)
      ensures retval == null ==> Fits(nodes, name, k) && last == (if k == 0 then null else nodes[k - 1])
    {
      hide StrCmp;
      retval, last, k := head, null, 0;
      while retval != null
        invariant k <= |nodes| && retval == NodeAt(nodes, k)
        invariant last == if k == 0 then null else nodes[k - 1]
        invariant forall i :: 0 <= i < k ==> StrCmp(nodes[i].filename, name) > 0
        decreases |nodes| - k
      {
        var compare := StrCmp(retval.filename, name);
        StrCmpEqual(retval.filename, name);
        if compare == 0 {
          return;
        }
        if compare < 0 {
          FitsFrom(nodes, name, k);
          return null, last, k;
        }
        last := retval;
        retval := retval.next;
        k := k + 1;
      }
      FitsFrom(nodes, name, k);
    }

    /** Chain a new node in after `last`; it is still to be filled. */
    method InsertAfter(last: L10nFile?, b: L10nFile, ghost k: nat)
      requires Valid() && Fits(nodes, b.filename, k) && b !in nodes && b in pending && b.successor !in SlotsOf(nodes)
      requires last == if k == 0 then null else nodes[k - 1]
      modifies this`head, this`nodes, b`next, NodeSet()`next
      ensures Valid() && nodes == old(nodes)[..k] + [b] + old(nodes)[k..]
      ensures b in nodes && NodeSet() == old(NodeSet()) + {b}
    {
      hide StrCmp, Descending, Complete;
      ghost var before := nodes;
      SettledSpliced(before, b, k, pending);
      FitsInside(before, b.filename, k);
      InsertedDescending(before, b, k);
      SplicedMembers(before, b, k);
      hide Fits;
      if last == null {
        b.next := head;
        head := b;
      } else {
        DistinctFromLast(k - 1);
        b.next := last.next;
        last.next := b;
      }
      LinkedIn(head, before, b, k);
      assert AllSettled(before[..k] + [b] + before[k..], pending);
      nodes := before[..k] + [b] + before[k..];
    }

    lemma DistinctFromLast(k: nat)
      requires Linked() && k < |nodes|
      ensures forall i :: 0 <= i < |nodes| && i != k ==> nodes[i] != nodes[k]
    {
      forall i | 0 <= i < |nodes| && i != k
        ensures nodes[i] != nodes[k]
      {
        OneNodePerName(nodes, i, k);
      }
    }

    /** A slot of a node that is being filled. */
    method Store(ghost node: L10nFile, slots: array<L10nFile?>, i: nat, file: L10nFile?, ghost names: seq<string>)
      requires Valid() && node in nodes && node in pending && node.successor == slots && i < slots.Length
      requires Filled(slots, names, nodes) && i == |names| && (file != null ==> file in nodes)
      modifies slots
      ensures Valid() && slots[i] == file
      ensures if file == null then Complete(slots, names, nodes) else Filled(slots, names + [file.filename], nodes)
    {
      slots[i] := file;
      assert forall b :: b in nodes && b !in pending ==> b.successor != slots;
    }

    /** `_nl_make_l10nflist`: find the node for a file name, or create it and everything it falls back to.
        It terminates because the requested mask falls, or a list of directories is split up. */
    method Make(argz: string, ghost dirs: seq<string>, mask: nat, p: Parts, filename: string, doAllocate: bool)
      returns (retval: L10nFile?)
      requires Valid() && mask < 0x1_0000
      requires Names(dirs) && dirs != [] && argz == Argz(dirs)
      modifies this, NodeSet()`next
      ensures Valid() && pending == old(pending)
      ensures old(NodeSet()) <= NodeSet() && fresh(NodeSet() - old(NodeSet()))
      ensures retval == null <==> !doAllocate && !Listed(old(nodes), FileName(dirs, mask, p, filename))
      ensures retval != null ==> retval in nodes && retval.filename == FileName(dirs, mask, p, filename)
      ensures Listed(old(nodes), FileName(dirs, mask, p, filename)) || !doAllocate ==> nodes == old(nodes)
      ensures retval != null && retval !in old(nodes) ==>
        retval.wants == Requests(dirs, FirstMask(dirs, mask), mask, p, filename)
      ensures retval != null && retval !in pending ==> Complete(retval.successor, retval.wants, nodes)
      decreases mask, |dirs|, 4
    {
      hide And, Has, Stem, FileName, Closed, Joined, Allocated, StrCmp, Requests, Pop, Pow2, Chain, Descending;
      var buf, end := AbsFilename(argz, dirs, mask, p, filename);
      var name := buf[..end];
      var last;
      ghost var k;
      retval, last, k := Search(name);
      if retval != null {
        return;
      }
      FitsMeansAbsent(nodes, name, k);
      if !doAllocate {
        return;
      }
      retval := Create(last, k, name, argz, dirs, mask, p, filename);
    }

    /** The new node, in its place in the list, with empty slots. */
    method Enlist(last: L10nFile?, ghost k: nat, name: string, decided: bool, slots: nat, ghost wants: seq<string>)
      returns (retval: L10nFile)
      requires Valid() && Fits(nodes, name, k)
      requires last == if k == 0 then null else nodes[k - 1]
      modifies this, NodeSet()`next
      ensures Valid() && pending == old(pending) + {retval}
      ensures NodeSet() == old(NodeSet()) + {retval} && fresh(retval) && fresh(retval.successor) && retval in nodes
      ensures retval.filename == name && retval.decided == decided && retval.wants == wants
      ensures retval.successor.Length == slots
    {
      hide Chain, Descending, StrCmp, Complete, Fits;
      retval := new L10nFile(name, decided, slots, wants);
      MorePending(nodes, pending, retval);
      pending := pending + {retval};
      InsertAfter(last, retval, k);
    }

    /** A node that was not found is taken into the list, and filled. */
    method Create(last: L10nFile?, ghost k: nat, name: string, argz: string, ghost dirs: seq<string>, mask: nat,
                  p: Parts, filename: string)
      returns (retval: L10nFile)
      requires Valid() && mask < 0x1_0000 && Fits(nodes, name, k)
      requires last == if k == 0 then null else nodes[k - 1]
      requires Names(dirs) && dirs != [] && argz == Argz(dirs)
      modifies this, NodeSet()`next
      ensures Valid() && pending == old(pending)
      ensures old(NodeSet()) <= NodeSet() && fresh(NodeSet() - old(NodeSet()))
      ensures fresh(retval) && retval in nodes && retval.filename == name
      ensures retval.wants == Requests(dirs, FirstMask(dirs, mask), mask, p, filename)
      ensures retval.decided <==> |dirs| != 1 || (Has(mask, XPG_CODESET) && Has(mask, XPG_NORM_CODESET))
      decreases mask, |dirs|, 3
    {
      hide And, Has, Chain, Descending, Requests, Pop, Pow2, Argz, StrCmp, Complete, Fits, Names;
      var count := ArgzCount(argz, dirs);
      var slots := 1 + count * Pow2(Pop(mask));
      ghost var wants := Requests(dirs, FirstMask(dirs, mask), mask, p, filename);
      var decided := count != 1 || (Has(mask, XPG_CODESET) && Has(mask, XPG_NORM_CODESET));
      retval := Enlist(last, k, name, decided, slots, wants);
      Descend(retval, retval.successor, argz, dirs, mask, p, filename);
      OneFilled(nodes, pending, retval);
      pending := pending - {retval};
    }

    /** The loop over the submasks. */
    method Descend(ghost node: L10nFile, slots: array<L10nFile?>, argz: string, ghost dirs: seq<string>, mask: nat,
                   p: Parts, filename: string)
      requires Valid() && mask < 0x1_0000 && slots.Length == 1 + |dirs| * Pow2(Pop(mask))
      requires node in nodes && node in pending && node.successor == slots
      requires Names(dirs) && dirs != [] && argz == Argz(dirs)
      modifies this, NodeSet()`next, slots
      ensures Valid() && pending == old(pending)
      ensures old(NodeSet()) <= NodeSet() && fresh(NodeSet() - old(NodeSet()))
      ensures Complete(slots, Requests(dirs, FirstMask(dirs, mask), mask, p, filename), nodes)
      decreases mask, |dirs|, 2
    {
      hide And, Has, FileName, Closed, Joined, StrCmp, Pop, Pow2, Wanted, Chain, Descending, Row, Requests, Filled,
           Complete;
      RequestsFit(dirs, mask, p, filename);
      var count := ArgzCount(argz, dirs);
      var cnt := if count == 1 then mask - 1 else mask;
      var entries := 0;
      ghost var done: seq<string> := [];
      NoneFilled(slots, nodes);
      ghost var all := Requests(dirs, FirstMask(dirs, mask), mask, p, filename);
      while cnt >= 0
        invariant -1 <= cnt <= FirstMask(dirs, mask)
        invariant Valid() && pending == old(pending)
        invariant old(NodeSet()) <= NodeSet() && fresh(NodeSet() - old(NodeSet()))
        invariant done + Requests(dirs, cnt, mask, p, filename) == all
        invariant entries == |done| && Filled(slots, done, nodes)
        decreases cnt
      {
        RequestsNext(dirs, cnt, mask, p, filename, done);
        if Wanted(cnt, mask) {
          entries := FillRow(node, slots, entries, argz, dirs, cnt, p, filename, done);
          done := done + Row(dirs, cnt, p, filename);
        }
        cnt := cnt - 1;
      }
      NoRequests(dirs, cnt, mask, p, filename, done);
      Store(node, slots, entries, null, done);
    }

    /** The loop over the directories, for one submask. */
    method FillRow(ghost node: L10nFile, slots: array<L10nFile?>, start: nat, argz: string, ghost dirs: seq<string>,
                   cnt: nat, p: Parts, filename: string, ghost done: seq<string>)
      returns (entries: nat)
      requires Valid() && cnt < 0x1_0000 && start == |done| && Filled(slots, done, nodes)
      requires node in nodes && node in pending && node.successor == slots
      requires start + |dirs| < slots.Length
      requires Names(dirs) && dirs != [] && argz == Argz(dirs)
      modifies this, NodeSet()`next, slots
      ensures Valid() && pending == old(pending)
      ensures old(NodeSet()) <= NodeSet() && fresh(NodeSet() - old(NodeSet()))
      ensures entries == start + |dirs| && Filled(slots, done + Row(dirs, cnt, p, filename), nodes)
      decreases cnt, |dirs|, if |dirs| == 1 then 6 else 1
    {
      hide And, Has, FileName, Closed, Joined, StrCmp, Chain, Descending, Filled;
      entries := start;
      ghost var k := 0;
      assert done + Row(dirs, cnt, p, filename)[..0] == done;
      var dir := ArgzNext(argz, None, dirs, 0);
      while dir != None
        invariant k <= |dirs| && entries == start + k
        invariant dir == if k < |dirs| then Some(Offset(dirs, k)) else None
        invariant Valid() && pending == old(pending)
        invariant old(NodeSet()) <= NodeSet() && fresh(NodeSet() - old(NodeSet()))
        invariant Filled(slots, done + Row(dirs, cnt, p, filename)[..k], nodes)
        decreases |dirs| - k
      {
        ghost var row := Row(dirs, cnt, p, filename);
        FillOne(node, slots, entries, argz, dir.value, dirs, k, cnt, p, filename, done + row[..k]);
        assert done + row[..k] + [row[k]] == done + row[..k + 1];
        entries := entries + 1;
        k := k + 1;
        dir := ArgzNext(argz, dir, dirs, k);
      }
      assert Row(dirs, cnt, p, filename)[..k] == Row(dirs, cnt, p, filename);
    }

    /** The node for one directory, made if it is missing. */
    method FillOne(ghost node: L10nFile, slots: array<L10nFile?>, i: nat, argz: string, offset: nat,
                   ghost dirs: seq<string>, ghost k: nat, cnt: nat, p: Parts, filename: string,
                   ghost names: seq<string>)
      requires Valid() && cnt < 0x1_0000 && Filled(slots, names, nodes) && i == |names| < slots.Length
      requires node in nodes && node in pending && node.successor == slots
      requires Names(dirs) && argz == Argz(dirs) && k < |dirs| && offset == Offset(dirs, k)
      modifies this, NodeSet()`next, slots
      ensures Valid() && pending == old(pending)
      ensures old(NodeSet()) <= NodeSet() && fresh(NodeSet() - old(NodeSet()))
      ensures Filled(slots, names + [FileName([dirs[k]], cnt, p, filename)], nodes)
      decreases cnt, |dirs|, if |dirs| == 1 then 5 else 0
    {
      hide And, Has, FileName, Closed, Joined, StrCmp, Chain, Descending, Filled;
      var entry := Entry(argz, offset, dirs, k);
      ghost var before := nodes;
      var file := Make(entry, [dirs[k]], cnt, p, filename, true);
      assert forall b :: b in before ==> b in NodeSet();
      FilledAmongMore(slots, names, before, nodes);
      Store(node, slots, i, file, names);
    }
  }

  /** The slots hold nodes with the given names, and NULL after them. */
  ghost predicate Complete(slots: array<L10nFile?>, names: seq<string>, nodes: seq<L10nFile>)
    reads slots
  {
    Filled(slots, names, nodes) && |names| < slots.Length && slots[|names|] == null
  }

  /** One directory of the vector, as a vector of its own. */
  method Entry(argz: string, offset: nat, ghost dirs: seq<string>, ghost k: nat) returns (entry: string)
    requires Names(dirs) && argz == Argz(dirs) && k < |dirs| && offset == Offset(dirs, k)
    ensures entry == Argz([dirs[k]])
  {
    OffsetReaches(dirs, k);
    var len := StrLen(argz, offset, dirs[k..]);
    NextEntry(argz, offset, dirs[k..]);
    entry := argz[offset..offset + len + 1];
    assert entry == dirs[k] + ['\0'];
    assert Argz([dirs[k]]) == dirs[k] + ['\0'] + Argz([dirs[k]][1..]);
  }
}
